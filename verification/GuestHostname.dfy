/**
 * Deriving a Windows computer name from a cell ID. Text is bytes: characters count by their
 * UTF-8 encoding, and bytes that encode none are replaced where the original replaces them.
 */
module GuestHostname {
  import opened Bytes
  import opened Splitting
  import opened Utf8

  type Text = seq<byte>

  const NETBIOS_NAME_MAX := 15

  const DEFAULT_GUEST_HOSTNAME: Text := [0x77, 0x69, 0x6E, 0x6B, 0x69, 0x74] // "winkit"

  const DASH: byte := 0x2D

  /** Backslash, slash, colon, star, question mark, quote, angle brackets, bar, space, tab. */
  predicate IsForbidden(c: byte) {
    || c == 0x5C || c == 0x2F || c == 0x3A || c == 0x2A || c == 0x3F || c == 0x22
    || c == 0x3C || c == 0x3E || c == 0x7C || c == 0x20 || c == 0x09
  }

  /** The characters that become dashes, spelled out. */
  lemma ForbiddenCharacters(c: byte)
    ensures IsForbidden(c) <==> c as char in "\\/:*?\"<>| \t"
  {
  }

  function Dashed(c: byte): byte {
    if IsForbidden(c) then DASH else c
  }

  function AllDashed(s: Text): (d: Text)
    ensures |d| == |s| && forall i :: 0 <= i < |s| ==> d[i] == Dashed(s[i])
  {
    seq(|s|, i requires 0 <= i < |s| => Dashed(s[i]))
  }

  /** Mapping a text character by character also replaces bytes that encode none. */
  function Mapped(cellID: Text): Text {
    AllDashed(Repaired(cellID))
  }

  // ----- Runs of dashes

  predicate PairAt(s: Text, i: nat)
    requires i + 1 < |s|
  {
    s[i] == DASH && s[i + 1] == DASH
  }

  predicate HasPair(s: Text) {
    exists i :: 0 <= i < |s| - 1 && PairAt(s, i)
  }

  /** One left-to-right pass replacing two dashes by "-". */
  function ReplacePairs(s: Text): (r: Text)
    ensures |r| <= |s|
  {
    if |s| < 2 then s
    else if PairAt(s, 0) then [DASH] + ReplacePairs(s[2..])
    else [s[0]] + ReplacePairs(s[1..])
  }

  /** Every run of dashes made one dash. */
  function Squeezed(s: Text): (r: Text)
    ensures |r| <= |s| && (|s| > 0 ==> |r| > 0 && r[0] == s[0])
  {
    if |s| < 2 then s
    else if PairAt(s, 0) then Squeezed(s[1..])
    else [s[0]] + Squeezed(s[1..])
  }

  lemma {:induction false} SqueezedHasNoPair(s: Text)
    ensures !HasPair(Squeezed(s))
  {
    if |s| >= 2 {
      SqueezedHasNoPair(s[1..]);
      var rest := Squeezed(s[1..]);
      if !PairAt(s, 0) {
        var r := [s[0]] + rest;
        forall i | 0 <= i < |r| - 1 ensures !PairAt(r, i) {
          if i > 0 {
            assert !PairAt(rest, i - 1);
          }
        }
      }
    }
  }

  lemma {:induction false} SqueezedOfNoPair(s: Text)
    requires !HasPair(s)
    ensures Squeezed(s) == s
  {
    if |s| >= 2 {
      assert !PairAt(s, 0);
      forall i | 0 <= i < |s[1..]| - 1 ensures !PairAt(s[1..], i) {
        assert !PairAt(s, i + 1);
      }
      SqueezedOfNoPair(s[1..]);
    }
  }

  /** A pass leaves the squeezed form alone and, where there is a pair, shortens. */
  lemma {:induction false} PassKeepsSqueezed(s: Text)
    ensures Squeezed(ReplacePairs(s)) == Squeezed(s)
    ensures |s| > 0 ==> |ReplacePairs(s)| > 0 && ReplacePairs(s)[0] == s[0]
    ensures HasPair(s) ==> |ReplacePairs(s)| < |s|
    decreases |s|
  {
    if |s| >= 2 {
      if PairAt(s, 0) {
        PassKeepsSqueezed(s[2..]);
        var rest := ReplacePairs(s[2..]);
        var pass := [DASH] + rest;
        assert pass[1..] == rest;
        assert s[1..][1..] == s[2..];
      } else {
        PassKeepsSqueezed(s[1..]);
        var rest := ReplacePairs(s[1..]);
        var pass := [s[0]] + rest;
        assert pass[1..] == rest;
        if HasPair(s) {
          var i :| 0 <= i < |s| - 1 && PairAt(s, i);
          assert PairAt(s[1..], i - 1);
        }
      }
    }
  }

  // ----- Trimming

  function TrimLeft(s: Text): Text {
    if |s| > 0 && s[0] == DASH then TrimLeft(s[1..]) else s
  }

  function TrimRight(s: Text): (r: Text)
    ensures r <= s && (|r| > 0 ==> r[|r| - 1] != DASH)
    ensures forall i :: |r| <= i < |s| ==> s[i] == DASH
  {
    if |s| > 0 && s[|s| - 1] == DASH then TrimRight(s[..|s| - 1]) else s
  }

  lemma {:induction false} TrimLeftIsSuffix(s: Text)
    ensures var r := TrimLeft(s);
            && |r| <= |s| && s[|s| - |r|..] == r && (|r| > 0 ==> r[0] != DASH)
            && forall i :: 0 <= i < |s| - |r| ==> s[i] == DASH
  {
    if |s| > 0 && s[0] == DASH {
      TrimLeftIsSuffix(s[1..]);
      var r := TrimLeft(s);
      assert s[|s| - |r|..] == s[1..][|s[1..]| - |r|..];
      assert forall i :: 1 <= i < |s| - |r| ==> s[i] == s[1..][i - 1];
    }
  }

  // ----- The derived name

  function Cleaned(cellID: Text): Text {
    TrimRight(TrimLeft(Squeezed(Mapped(cellID))))
  }

  function Truncated(clean: Text): Text {
    if |clean| > NETBIOS_NAME_MAX then TrimRight(clean[..NETBIOS_NAME_MAX]) else clean
  }

  function HostnameOf(cellID: Text): Text {
    var clean := Truncated(Cleaned(cellID));
    if clean == [] then DEFAULT_GUEST_HOSTNAME else clean
  }

  method GuestHostname(cellID: Text) returns (name: Text)
    ensures name == HostnameOf(cellID)
  {
    var clean := Mapped(cellID);
    while HasPair(clean)
      invariant Squeezed(clean) == Squeezed(Mapped(cellID))
      decreases |clean|
    {
      PassKeepsSqueezed(clean);
      clean := ReplacePairs(clean);
    }
    SqueezedOfNoPair(clean);
    clean := TrimRight(TrimLeft(clean));
    if |clean| > NETBIOS_NAME_MAX {
      clean := TrimRight(clean[..NETBIOS_NAME_MAX]);
    }
    if clean == [] {
      return DEFAULT_GUEST_HOSTNAME;
    }
    return clean;
  }

  /** A computer name as the derivation means to leave it. */
  predicate IsLegal(name: Text) {
    && 0 < |name| <= NETBIOS_NAME_MAX
    && (forall i :: 0 <= i < |name| ==> !IsForbidden(name[i]))
    && !HasPair(name)
    && name[0] != DASH && name[|name| - 1] != DASH
  }

  /** No forbidden character and no double dash: kept by every cut. */
  predicate IsClean(s: Text) {
    !HasPair(s) && forall i :: 0 <= i < |s| ==> !IsForbidden(s[i])
  }

  lemma CutIsClean(s: Text, lo: nat, hi: nat)
    requires lo <= hi <= |s| && IsClean(s)
    ensures IsClean(s[lo..hi])
  {
    forall i | 0 <= i < |s[lo..hi]| - 1 ensures !PairAt(s[lo..hi], i) {
      assert !PairAt(s, lo + i);
    }
  }

  lemma {:induction false} SqueezedIsClean(s: Text)
    requires forall i :: 0 <= i < |s| ==> !IsForbidden(s[i])
    ensures IsClean(Squeezed(s))
  {
    SqueezedHasNoPair(s);
    if |s| >= 2 {
      SqueezedIsClean(s[1..]);
    }
  }

  lemma TrimLeftIsClean(s: Text)
    requires IsClean(s)
    ensures IsClean(TrimLeft(s)) && (TrimLeft(s) != [] ==> TrimLeft(s)[0] != DASH)
  {
    TrimLeftIsSuffix(s);
    CutIsClean(s, |s| - |TrimLeft(s)|, |s|);
    assert s[|s| - |TrimLeft(s)|..|s|] == TrimLeft(s);
  }

  lemma TrimRightIsClean(s: Text)
    requires IsClean(s)
    ensures IsClean(TrimRight(s))
  {
    CutIsClean(s, 0, |TrimRight(s)|);
    assert s[0..|TrimRight(s)|] == TrimRight(s);
  }

  lemma TrimmedIsClean(s: Text)
    requires IsClean(s)
    ensures var clean := TrimRight(TrimLeft(s));
            IsClean(clean) && (clean != [] ==> clean[0] != DASH && clean[|clean| - 1] != DASH)
  {
    TrimLeftIsClean(s);
    TrimRightIsClean(TrimLeft(s));
  }

  lemma CleanedIsClean(cellID: Text)
    ensures var clean := Cleaned(cellID);
            IsClean(clean) && (clean != [] ==> clean[0] != DASH && clean[|clean| - 1] != DASH)
  {
    SqueezedIsClean(Mapped(cellID));
    TrimmedIsClean(Squeezed(Mapped(cellID)));
  }

  lemma DefaultIsLegal()
    ensures IsLegal(DEFAULT_GUEST_HOSTNAME)
  {
  }

  lemma TruncatedIsLegal(clean: Text)
    requires IsClean(clean) && clean != [] && clean[0] != DASH && clean[|clean| - 1] != DASH
    ensures Truncated(clean) != [] ==> IsLegal(Truncated(clean))
  {
    var name := Truncated(clean);
    CutIsClean(clean, 0, |name|);
    assert clean[0..|name|] == name;
  }

  /** Whatever the cell ID, the derived name is legal. */
  lemma HostnameIsLegal(cellID: Text)
    ensures IsLegal(HostnameOf(cellID))
  {
    DefaultIsLegal();
    CleanedIsClean(cellID);
    if Cleaned(cellID) != [] {
      TruncatedIsLegal(Cleaned(cellID));
    }
  }

  // ----- Whether the name is valid text

  lemma {:induction false} DashedIsValid(s: Text)
    requires Valid(s)
    ensures Valid(AllDashed(s))
    decreases |s|
  {
    if s != [] {
      var w := Width(s);
      assert Width(AllDashed(s)) == w;
      assert AllDashed(s)[w..] == AllDashed(s[w..]);
      DashedIsValid(s[w..]);
    }
  }

  lemma FirstBytes(s: Text, n: nat, rest: Text)
    requires 0 < n <= |s|
    ensures [s[0]] + (s[1..][..n - 1] + rest) == s[..n] + rest
  {
  }

  lemma {:induction false} SqueezedSkips(s: Text, n: nat)
    requires n <= |s| && forall i :: 0 <= i < n ==> s[i] != DASH
    ensures Squeezed(s) == s[..n] + Squeezed(s[n..])
  {
    if n == 0 {
      assert s[0..] == s;
    } else {
      SqueezedSkips(s[1..], n - 1);
      assert s[1..][n - 1..] == s[n..];
      FirstBytes(s, n, Squeezed(s[n..]));
    }
  }

  lemma WideCharacterHasNoDash(s: Text)
    requires Width(s) > 1
    ensures forall i :: 0 <= i < Width(s) ==> s[i] >= 0x80
  {
  }

  lemma {:induction false} SqueezedIsValid(s: Text)
    requires Valid(s)
    ensures Valid(Squeezed(s))
    decreases |s|
  {
    if |s| >= 2 {
      var w := Width(s);
      SqueezedIsValid(s[w..]);
      var rest := Squeezed(s[w..]);
      if w == 1 {
        AsciiByte([s[0]]);
        assert Valid([s[0]]);
        ValidTogether([s[0]], rest);
      } else {
        WideCharacterHasNoDash(s);
        SqueezedSkips(s, w);
        FirstCharacter(s);
        ValidTogether(s[..w], rest);
      }
    }
  }

  lemma FirstCharacter(s: Text)
    requires Width(s) > 0
    ensures Valid(s[..Width(s)])
  {
    WidthOfPrefix(s, s[..Width(s)]);
    assert s[..Width(s)][Width(s)..] == [];
  }

  lemma {:induction false} TrimLeftIsValid(s: Text)
    requires Valid(s)
    ensures Valid(TrimLeft(s))
  {
    if s != [] && s[0] == DASH {
      AsciiByte(s);
      TrimLeftIsValid(s[1..]);
    }
  }

  /** A dash is no part of a longer character. */
  lemma LastDash(front: Text)
    ensures Valid(front + [DASH]) <==> Valid(front)
  {
    var s := front + [DASH];
    if Valid(s) {
      CutIsValidIff(s, |front|);
      assert s[..|front|] == front;
    }
    if Valid(front) {
      AsciiIsValid([DASH]);
      ValidTogether(front, [DASH]);
    }
  }

  lemma {:induction false} TrimRightIsValidIff(s: Text)
    ensures Valid(TrimRight(s)) <==> Valid(s)
  {
    if s != [] && s[|s| - 1] == DASH {
      var front := s[..|s| - 1];
      TrimRightIsValidIff(front);
      LastDash(front);
      assert front + [DASH] == s;
    }
  }

  lemma CleanedIsValid(cellID: Text)
    ensures Valid(Cleaned(cellID))
  {
    RepairedIsValid(cellID);
    DashedIsValid(Repaired(cellID));
    SqueezedIsValid(Mapped(cellID));
    TrimLeftIsValid(Squeezed(Mapped(cellID)));
    TrimRightIsValidIff(TrimLeft(Squeezed(Mapped(cellID))));
  }

  /** The cut to fifteen bytes, if there is one, falls between two characters. */
  predicate CutBetweenCharacters(clean: Text) {
    |clean| > NETBIOS_NAME_MAX ==> !IsContinuation(clean[NETBIOS_NAME_MAX])
  }

  lemma HostnameIsValidIff(cellID: Text)
    ensures Valid(HostnameOf(cellID)) <==> CutBetweenCharacters(Cleaned(cellID))
  {
    var clean := Cleaned(cellID);
    CleanedIsValid(cellID);
    if |clean| > NETBIOS_NAME_MAX {
      CleanedIsClean(cellID);
      CutIsValidIff(clean, NETBIOS_NAME_MAX);
      TrimRightIsValidIff(clean[..NETBIOS_NAME_MAX]);
      TrimRightKeepsFirst(clean[..NETBIOS_NAME_MAX]);
    }
    AsciiIsValid(DEFAULT_GUEST_HOSTNAME);
  }

  lemma TrimRightKeepsFirst(s: Text)
    requires s != [] && s[0] != DASH
    ensures TrimRight(s) != []
  {
  }

  // ----- Deriving a name again

  ghost predicate NoDash(s: Text) {
    forall i :: 0 <= i < |s| ==> s[i] != DASH
  }

  lemma JoinedIsClean(a: Text, b: Text)
    requires IsClean(a) && IsClean(b)
    requires a != [] && b != [] ==> a[|a| - 1] != DASH || b[0] != DASH
    ensures IsClean(a + b)
  {
    forall i | 0 <= i < |a + b| - 1 ensures !PairAt(a + b, i) {
      if i + 1 < |a| {
        assert !PairAt(a, i);
      } else if i >= |a| {
        assert !PairAt(b, i - |a|);
      }
    }
  }

  lemma FrontIsClean(s: Text)
    requires IsClean(s) && s != []
    ensures IsClean(REPLACEMENT) && IsClean(s[..Width(s)])
    ensures Width(s) == 0 ==> s[0] != DASH
    ensures Width(s) > 1 ==> s[0] != DASH && s[Width(s) - 1] != DASH
  {
    assert NoDash(REPLACEMENT);
    CutIsClean(s, 0, Width(s));
    assert s[0..Width(s)] == s[..Width(s)];
  }

  /** Both texts are empty, or they have dashes at the same ends. */
  ghost predicate KeepsEnds(s: Text, r: Text) {
    && (s == [] <==> r == [])
    && (s != [] && r != [] ==> (r[0] == DASH <==> s[0] == DASH) && (r[|r| - 1] == DASH <==> s[|s| - 1] == DASH))
  }

  lemma JoinedKeepsEnds(a: Text, r: Text, b: Text, t: Text)
    requires KeepsEnds(a, r) && KeepsEnds(b, t)
    ensures KeepsEnds(a + b, r + t)
  {
  }

  /** The first character, or what replaces a broken byte. */
  function FirstRepaired(s: Text): Text
    requires s != []
  {
    if Width(s) == 0 then REPLACEMENT else s[..Width(s)]
  }

  lemma FrontKeepsEnds(s: Text, n: nat)
    requires IsClean(s) && s != [] && n == if Width(s) == 0 then 1 else Width(s)
    ensures IsClean(FirstRepaired(s)) && KeepsEnds(s[..n], FirstRepaired(s))
    ensures Repaired(s) == FirstRepaired(s) + Repaired(s[n..])
  {
    FrontIsClean(s);
  }

  lemma CleanBorder(s: Text, n: nat)
    requires IsClean(s) && 0 < n < |s|
    ensures s[n - 1] != DASH || s[n] != DASH
  {
    assert !PairAt(s, n - 1);
  }

  lemma PartsKeepClean(s: Text, n: nat, front: Text, rest: Text)
    requires IsClean(s) && 0 < n <= |s| && IsClean(front) && IsClean(rest)
    requires KeepsEnds(s[..n], front) && KeepsEnds(s[n..], rest)
    ensures IsClean(front + rest) && KeepsEnds(s, front + rest)
  {
    if n < |s| {
      CleanBorder(s, n);
    }
    JoinedIsClean(front, rest);
    JoinedKeepsEnds(s[..n], front, s[n..], rest);
    assert s[..n] + s[n..] == s;
  }

  /** Text without double dashes has none when repaired, and keeps its dashes at either end. */
  lemma {:induction false} RepairedKeepsClean(s: Text)
    requires IsClean(s)
    ensures IsClean(Repaired(s)) && KeepsEnds(s, Repaired(s))
    decreases |s|
  {
    if s != [] {
      var n := if Width(s) == 0 then 1 else Width(s);
      CutIsClean(s, n, |s|);
      assert s[n..|s|] == s[n..];
      RepairedKeepsClean(s[n..]);
      FrontKeepsEnds(s, n);
      PartsKeepClean(s, n, FirstRepaired(s), Repaired(s[n..]));
    }
  }

  lemma CleanTextIsOnlyRepaired(name: Text)
    requires IsClean(name) && name != [] && name[0] != DASH && name[|name| - 1] != DASH
    ensures Cleaned(name) == Repaired(name) && Repaired(name) != []
    ensures Repaired(name)[0] != DASH && Repaired(name)[|Repaired(name)| - 1] != DASH
  {
    RepairedKeepsClean(name);
    var r := Repaired(name);
    assert AllDashed(r) == r;
    SqueezedOfNoPair(r);
  }

  /** The derivation leaves alone exactly the legal names that are valid text or end, at fifteen
      bytes, inside a U+FFFD. */
  lemma HostnameFixesLegalNames(name: Text)
    ensures HostnameOf(name) == name
            <==> IsLegal(name) && (Valid(name) || (|name| == NETBIOS_NAME_MAX && name <= Repaired(name)))
  {
    HostnameIsLegal(name);
    if IsLegal(name) {
      CleanTextIsOnlyRepaired(name);
      if Valid(name) {
        RepairedOfValid(name);
      } else {
        BrokenNameIsFixedIff(name);
      }
    }
  }

  lemma BrokenNameIsFixedIff(name: Text)
    requires IsLegal(name) && !Valid(name) && Cleaned(name) == Repaired(name) != []
    ensures HostnameOf(name) == name <==> |name| == NETBIOS_NAME_MAX && name <= Repaired(name)
  {
    var r := Repaired(name);
    RepairedGrows(name);
    if |r| > NETBIOS_NAME_MAX {
      var cut := r[..NETBIOS_NAME_MAX];
      if |name| == NETBIOS_NAME_MAX && name <= r {
        assert cut == name;
      } else if HostnameOf(name) == name {
        NameIsWholeCut(name, r);
      }
    }
  }

  lemma NameIsWholeCut(name: Text, r: Text)
    requires !Valid(name) && r == Repaired(name) && |r| > NETBIOS_NAME_MAX
    requires TrimRight(r[..NETBIOS_NAME_MAX]) == name
    ensures |name| == NETBIOS_NAME_MAX && name <= r
  {
    assert name <= r[..NETBIOS_NAME_MAX] <= r;
    if |name| < NETBIOS_NAME_MAX {
      assert r[|name|] == r[..NETBIOS_NAME_MAX][|name|] == DASH;
      PrefixOfRepaired(name);
    }
  }

  /** What the cut leaves of a character looks like the start of U+FFFD. */
  predicate LeavesReplacementStart(clean: Text)
    requires |clean| > NETBIOS_NAME_MAX
  {
    clean[14] == 0xEF || (clean[13] == 0xEF && clean[14] == 0xBF)
  }

  /** Deriving a name from a derived one changes nothing exactly when the first derivation was
      cut between two characters, or what it left of one looks like the start of U+FFFD. */
  lemma DerivingTwiceIsOnceIff(cellID: Text)
    ensures HostnameOf(HostnameOf(cellID)) == HostnameOf(cellID)
            <==> var clean := Cleaned(cellID); CutBetweenCharacters(clean) || LeavesReplacementStart(clean)
  {
    var clean, name := Cleaned(cellID), HostnameOf(cellID);
    HostnameIsLegal(cellID);
    HostnameFixesLegalNames(name);
    HostnameIsValidIff(cellID);
    if !CutBetweenCharacters(clean) {
      CleanedIsValid(cellID);
      CutNameIsFixedIff(clean, name);
    }
  }

  /** A name cut inside a character keeps its fifteen bytes, for the last is no dash. */
  lemma CutNameIsWhole(clean: Text, j: nat)
    requires |clean| > NETBIOS_NAME_MAX && j < NETBIOS_NAME_MAX < j + Width(clean[j..])
    ensures Truncated(clean) == clean[..NETBIOS_NAME_MAX]
  {
    WideCharacterHasNoDash(clean[j..]);
    assert clean[..NETBIOS_NAME_MAX][14] == clean[14] == clean[j..][14 - j] != DASH;
  }

  lemma CutNameIsFixedIff(clean: Text, name: Text)
    requires Valid(clean) && !CutBetweenCharacters(clean)
    requires name == if Truncated(clean) == [] then DEFAULT_GUEST_HOSTNAME else Truncated(clean)
    ensures |name| == NETBIOS_NAME_MAX && name == clean[..NETBIOS_NAME_MAX]
    ensures name <= Repaired(name) <==> LeavesReplacementStart(clean)
  {
    var j := CutInside(clean, NETBIOS_NAME_MAX);
    var c, k := clean[j..], NETBIOS_NAME_MAX - j;
    CutNameIsWhole(clean, j);
    FragmentIsReplaced(c, k);
    FragmentStartsReplacementIff(c, k);
    FragmentEnds(clean, j);
    assert name == clean[..j] + c[..k];
    RepairedAfterValid(clean[..j], c[..k]);
    PrefixBehind(clean[..j], c[..k], Repaired(c[..k]));
  }

  lemma PrefixBehind(front: Text, a: Text, b: Text)
    ensures front + a <= front + b <==> a <= b
  {
    if front + a <= front + b {
      assert a == (front + a)[|front|..] && b == (front + b)[|front|..];
    }
  }

  /** The fragment read off the bytes before the cut. */
  lemma FragmentEnds(clean: Text, j: nat)
    requires |clean| > NETBIOS_NAME_MAX && j < NETBIOS_NAME_MAX < j + Width(clean[j..])
    ensures var c, k := clean[j..], NETBIOS_NAME_MAX - j;
            LeavesReplacementStart(clean) <==> (k == 1 && c[0] == 0xEF) || (k == 2 && c[0] == 0xEF && c[1] == 0xBF)
  {
    var c, k := clean[j..], NETBIOS_NAME_MAX - j;
    ContinuationsFollow(c, k - 1);
    assert clean[14] == c[k - 1];
    if k > 1 {
      ContinuationsFollow(c, k - 2);
      assert clean[13] == c[k - 2];
    }
  }

  lemma FragmentStartsReplacementIff(c: Text, k: nat)
    requires 0 < k < Width(c) && REPLACEMENT <= Repaired(c[..k])
    ensures c[..k] <= Repaired(c[..k]) <==> (k == 1 && c[0] == 0xEF) || (k == 2 && c[0] == 0xEF && c[1] == 0xBF)
  {
    var r := Repaired(c[..k]);
    assert forall i :: 0 <= i < 3 ==> r[i] == REPLACEMENT[i];
    assert forall i :: 0 <= i < k ==> c[..k][i] == c[i];
  }

  // ----- A name that is cut inside a character, and names that never are

  lemma PlainIsClean(s: Text)
    requires NoDash(s) && forall i :: 0 <= i < |s| ==> !IsForbidden(s[i])
    ensures IsClean(s)
  {
  }

  /** Fourteen letters a. */
  ghost predicate AreAs(a: Text) {
    |a| == 14 && forall i :: 0 <= i < 14 ==> a[i] == 0x61
  }

  lemma AsArePlain(a: Text, tail: Text)
    requires AreAs(a) && tail != [] && forall i :: 0 <= i < |tail| ==> tail[i] >= 0x80
    ensures IsClean(a + tail) && (a + tail)[0] != DASH && (a + tail)[|a + tail| - 1] != DASH
  {
    var s := a + tail;
    assert forall i :: 0 <= i < |s| ==> s[i] == if i < 14 then 0x61 else tail[i - 14];
    PlainIsClean(s);
  }

  lemma CleanedAfterValid(a: Text, tail: Text)
    requires Valid(a) && IsClean(a + tail) && a + tail != []
    requires (a + tail)[0] != DASH && (a + tail)[|a + tail| - 1] != DASH
    ensures Cleaned(a + tail) == a + Repaired(tail)
  {
    CleanTextIsOnlyRepaired(a + tail);
    RepairedAfterValid(a, tail);
  }

  lemma AsAndMore(a: Text, tail: Text)
    requires AreAs(a) && tail != [] && forall i :: 0 <= i < |tail| ==> tail[i] >= 0x80
    requires |Repaired(tail)| > 1 && Repaired(tail)[0] != DASH
    ensures Valid(a) && HostnameOf(a + tail) == a + Repaired(tail)[..1]
  {
    AsciiIsValid(a);
    AsArePlain(a, tail);
    CleanedAfterValid(a, tail);
    CutAfterAs(a, Repaired(tail));
  }

  lemma CutAfterAs(a: Text, rest: Text)
    requires |a| == 14 && |rest| > 1 && rest[0] != DASH
    ensures Truncated(a + rest) == a + rest[..1]
  {
    assert (a + rest)[..NETBIOS_NAME_MAX] == a + rest[..1];
  }

  const E_ACUTE: Text := [0xC3, 0xA9] // U+00E9

  lemma EAcuteIsValid()
    ensures Valid(E_ACUTE)
  {
    assert Width(E_ACUTE) == 2 && E_ACUTE[2..] == [];
  }

  lemma FirstByteIsKept(a: Text)
    requires AreAs(a)
    ensures Valid(a + E_ACUTE) && HostnameOf(a + E_ACUTE) == a + [0xC3]
  {
    EAcuteIsValid();
    RepairedOfValid(E_ACUTE);
    AsAndMore(a, E_ACUTE);
    ValidTogether(a, E_ACUTE);
    assert E_ACUTE[..1] == [0xC3];
  }

  lemma RepairedBrokenByte()
    ensures Repaired([0xC3]) == REPLACEMENT
  {
    var broken: Text := [0xC3];
    assert Width(broken) == 0 && broken[1..] == [];
    assert Repaired(broken) == REPLACEMENT + [];
  }

  lemma BrokenByteIsReplaced(a: Text)
    requires AreAs(a)
    ensures HostnameOf(a + [0xC3]) == a + [0xEF]
  {
    RepairedBrokenByte();
    AsAndMore(a, [0xC3]);
    assert REPLACEMENT[..1] == [0xEF];
  }

  lemma LastByteTells(a: Text, x: byte, y: byte)
    requires x != y
    ensures a + [x] != a + [y]
  {
    assert (a + [x])[|a|] == x && (a + [y])[|a|] == y;
  }

  /** Fourteen letters and U+00E9: the name keeps its first byte, which deriving again replaces. */
  lemma CutCharacterIsReplaced(a: Text)
    requires AreAs(a)
    ensures var cellID := a + E_ACUTE;
            Valid(cellID) && HostnameOf(HostnameOf(cellID)) == a + [0xEF] != HostnameOf(cellID)
  {
    FirstByteIsKept(a);
    BrokenByteIsReplaced(a);
    LastByteTells(a, 0xC3, 0xEF);
  }

  ghost predicate IsAscii(s: Text) {
    forall i :: 0 <= i < |s| ==> s[i] < 0x80
  }

  lemma {:induction false} SqueezedIsAscii(s: Text)
    requires IsAscii(s)
    ensures IsAscii(Squeezed(s))
  {
    if |s| >= 2 {
      SqueezedIsAscii(s[1..]);
    }
  }

  /** ASCII cell IDs have no character to cut. */
  lemma AsciiIsDerivedOnce(cellID: Text)
    requires IsAscii(cellID)
    ensures HostnameOf(HostnameOf(cellID)) == HostnameOf(cellID)
  {
    AsciiIsValid(cellID);
    RepairedOfValid(cellID);
    SqueezedIsAscii(Mapped(cellID));
    var s := Squeezed(Mapped(cellID));
    TrimLeftIsSuffix(s);
    assert IsAscii(TrimLeft(s)) by {
      assert TrimLeft(s) == s[|s| - |TrimLeft(s)|..];
    }
    DerivingTwiceIsOnceIff(cellID);
  }

  // ----- What of the cell ID survives

  /** The characters that stand for themselves, in order. */
  function Letters(s: Text): Text {
    if s == [] then []
    else (if Dashed(s[0]) == DASH then [] else [s[0]]) + Letters(s[1..])
  }

  lemma {:induction false} LettersOfConcat(a: Text, b: Text)
    ensures Letters(a + b) == Letters(a) + Letters(b)
  {
    if a == [] {
      assert a + b == b;
    } else {
      LettersOfConcat(a[1..], b);
      SplitConcat(a, b, 1);
      ConcatIsAssociative(if Dashed(a[0]) == DASH then [] else [a[0]], Letters(a[1..]), Letters(b));
    }
  }

  lemma {:induction false} LettersOfDashes(s: Text)
    ensures Letters(s) == [] <==> forall i :: 0 <= i < |s| ==> Dashed(s[i]) == DASH
  {
    if s != [] {
      LettersOfDashes(s[1..]);
      if Letters(s) == [] {
        forall i | 0 <= i < |s| ensures Dashed(s[i]) == DASH {
          if i > 0 {
            assert s[i] == s[1..][i - 1];
          }
        }
      }
    }
  }

  lemma {:induction false} LettersOfDashed(s: Text)
    ensures Letters(AllDashed(s)) == Letters(s)
  {
    if s != [] {
      assert AllDashed(s)[1..] == AllDashed(s[1..]);
      LettersOfDashed(s[1..]);
    }
  }

  lemma {:induction false} LettersOfSqueezed(s: Text)
    ensures Letters(Squeezed(s)) == Letters(s)
  {
    if |s| >= 2 {
      LettersOfSqueezed(s[1..]);
      if !PairAt(s, 0) {
        assert Squeezed(s)[1..] == Squeezed(s[1..]);
      }
    }
  }

  lemma {:induction false} LettersOfTrimLeft(s: Text)
    ensures Letters(TrimLeft(s)) == Letters(s)
  {
    if |s| > 0 && s[0] == DASH {
      LettersOfTrimLeft(s[1..]);
    }
  }

  lemma {:induction false} LettersOfTrimRight(s: Text)
    ensures Letters(TrimRight(s)) == Letters(s)
  {
    var r := TrimRight(s);
    var cut := s[|r|..];
    assert forall i :: 0 <= i < |cut| ==> cut[i] == s[|r| + i];
    LettersOfDashes(cut);
    LettersOfConcat(r, cut);
    assert r + cut == s;
  }

  lemma LettersOfCleaned(cellID: Text)
    ensures Letters(Cleaned(cellID)) == Letters(Repaired(cellID))
  {
    LettersOfDashed(Repaired(cellID));
    var s := Squeezed(Mapped(cellID));
    LettersOfSqueezed(Mapped(cellID));
    LettersOfTrimLeft(s);
    LettersOfTrimRight(TrimLeft(s));
  }

  lemma LettersOfStart(name: Text, rest: Text)
    requires name != [] && Dashed(name[0]) != DASH
    ensures [] != Letters(name) <= Letters(name + rest)
  {
    LettersOfConcat(name, rest);
  }

  lemma LettersOfTruncated(clean: Text)
    requires clean != [] && Dashed(clean[0]) != DASH
    ensures var name := Truncated(clean);
            name != [] && [] != Letters(name) <= Letters(clean)
  {
    var name := Truncated(clean);
    assert name != [] && name[0] == clean[0];
    assert name + clean[|name|..] == clean;
    LettersOfStart(name, clean[|name|..]);
  }

  /** The name's own bytes are a non-empty prefix of the repaired cell ID's, all of them when the
      cleaned name fits; the default stands in exactly when the ID has none. */
  lemma NameSpellsCellID(cellID: Text)
    ensures var letters := Letters(Repaired(cellID));
            && (letters == [] ==> HostnameOf(cellID) == DEFAULT_GUEST_HOSTNAME)
            && (letters != [] ==> [] != Letters(HostnameOf(cellID)) <= letters)
            && (0 < |Cleaned(cellID)| <= NETBIOS_NAME_MAX ==> Letters(HostnameOf(cellID)) == letters)
  {
    var clean := Cleaned(cellID);
    LettersOfCleaned(cellID);
    if clean != [] {
      assert Dashed(clean[0]) != DASH by {
        CleanedIsClean(cellID);
      }
      LettersOfTruncated(clean);
    }
  }

  // ----- Separators

  ghost predicate OnlySeparators(s: Text) {
    forall i :: 0 <= i < |s| ==> IsForbidden(s[i]) || s[i] == DASH
  }

  ghost predicate IsWord(s: Text) {
    s != [] && IsAscii(s) && NoDash(s) && forall i :: 0 <= i < |s| ==> !IsForbidden(s[i])
  }

  ghost predicate OnlyDashes(s: Text) {
    forall i :: 0 <= i < |s| ==> s[i] == DASH
  }

  lemma {:induction false} SqueezedDashes(dashes: Text, b: Text)
    requires OnlyDashes(dashes) && dashes != [] && IsWord(b)
    ensures Squeezed(dashes + b) == [DASH] + b
    decreases |dashes|
  {
    var s := dashes + b;
    assert s[1..] == dashes[1..] + b;
    if |dashes| > 1 {
      SqueezedDashes(dashes[1..], b);
    } else {
      assert s[1..] == b;
      WordIsClean(b);
      SqueezedOfNoPair(b);
    }
  }

  lemma WordIsClean(b: Text)
    requires IsWord(b)
    ensures IsClean(b)
  {
    PlainIsClean(b);
  }

  lemma {:induction false} SqueezedBetween(a: Text, dashes: Text, b: Text)
    requires NoDash(a) && OnlyDashes(dashes) && dashes != [] && IsWord(b)
    ensures Squeezed(a + (dashes + b)) == a + ([DASH] + b)
    decreases |a|
  {
    if a == [] {
      SqueezedDashes(dashes, b);
      assert [] + (dashes + b) == dashes + b && [] + ([DASH] + b) == [DASH] + b;
    } else {
      var s := a + (dashes + b);
      assert s[1..] == a[1..] + (dashes + b) && s[0] == a[0];
      SqueezedBetween(a[1..], dashes, b);
      assert [a[0]] + (a[1..] + ([DASH] + b)) == a + ([DASH] + b);
    }
  }

  lemma MappedAscii(s: Text)
    requires IsAscii(s)
    ensures Mapped(s) == AllDashed(s)
  {
    AsciiIsValid(s);
    RepairedOfValid(s);
  }

  lemma DashedWords(a: Text, separators: Text, b: Text)
    requires IsWord(a) && OnlySeparators(separators) && IsWord(b)
    ensures OnlyDashes(AllDashed(separators))
    ensures AllDashed(a + (separators + b)) == a + (AllDashed(separators) + b)
  {
  }

  lemma MappedWords(a: Text, separators: Text, b: Text)
    requires IsWord(a) && OnlySeparators(separators) && IsAscii(separators) && IsWord(b)
    ensures OnlyDashes(AllDashed(separators))
    ensures Mapped(a + (separators + b)) == a + (AllDashed(separators) + b)
  {
    MappedAscii(a + (separators + b));
    DashedWords(a, separators, b);
  }

  lemma TrimmedEnds(s: Text)
    requires s != [] && s[0] != DASH && s[|s| - 1] != DASH
    ensures TrimRight(TrimLeft(s)) == s
  {
  }

  /** Between two words that fit together into a name, any run of separators becomes one dash. */
  lemma SeparatorsBecomeOneDash(a: Text, separators: Text, b: Text)
    requires IsWord(a) && IsWord(b) && |a| + 1 + |b| <= 15
    requires separators != [] && OnlySeparators(separators) && IsAscii(separators)
    ensures HostnameOf(a + (separators + b)) == a + ([DASH] + b)
  {
    MappedWords(a, separators, b);
    SqueezedBetween(a, AllDashed(separators), b);
    TrimmedEnds(a + ([DASH] + b));
  }
}
