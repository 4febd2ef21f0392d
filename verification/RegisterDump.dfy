/** Reading one register out of QEMU's "info registers" text. */
module RegisterDump {
  import opened Wrappers

  predicate IsRegisterBoundary(c: char) {
    c == ' ' || c == '\n' || c == '\t' || c == '\r'
  }

  predicate Occurs(regs: string, name: string, k: nat) {
    k + |name| <= |regs| && forall i :: 0 <= i < |name| ==> regs[k + i] == name[i]
  }

  /** No occurrence at or after i comes before the given one. */
  ghost predicate NoneFrom(regs: string, name: string, i: nat, at: Option<nat>) {
    forall k: nat :: i <= k && (at.Some? ==> k < at.value) ==> !Occurs(regs, name, k)
  }

  /** The first occurrence at or after i. */
  function Index(regs: string, name: string, i: nat): (at: Option<nat>)
    requires i <= |regs|
    ensures at.Some? ==> i <= at.value && Occurs(regs, name, at.value)
    ensures NoneFrom(regs, name, i, at)
    decreases |regs| - i
  {
    if Occurs(regs, name, i) then Some(i)
    else if i == |regs| then None
    else Index(regs, name, i + 1)
  }

  /** An occurrence at the start of a token. */
  predicate Anchored(regs: string, name: string, k: nat) {
    Occurs(regs, name, k) && (k == 0 || IsRegisterBoundary(regs[k - 1]))
  }

  /** The characters up to the first boundary. */
  function Token(val: string): (token: string)
    ensures token <= val && forall k :: 0 <= k < |token| ==> !IsRegisterBoundary(token[k])
    ensures |token| < |val| ==> IsRegisterBoundary(val[|token|])
  {
    if val == "" || IsRegisterBoundary(val[0]) then "" else [val[0]] + Token(val[1..])
  }

  // ----- The search as written: past an unanchored hit by the whole name

  function Hit(regs: string, name: string, i: nat): (at: Option<nat>)
    requires i <= |regs| && (name == "" ==> i == 0)
    ensures at.Some? ==> Anchored(regs, name, at.value)
    decreases |regs| - i
  {
    match Index(regs, name, i)
    case None => None
    case Some(start) =>
      if Anchored(regs, name, start) then Some(start) else Hit(regs, name, start + |name|)
  }

  lemma HitSkips(regs: string, name: string, i: nat, start: nat)
    requires i <= |regs| && (name == "" ==> i == 0)
    requires Index(regs, name, i) == Some(start) && !Anchored(regs, name, start)
    ensures name != "" && start + |name| <= |regs|
    ensures Hit(regs, name, start + |name|) == Hit(regs, name, i)
  {
  }

  function ValueAt(regs: string, name: string, hit: Option<nat>): string
    requires hit.Some? ==> hit.value + |name| <= |regs|
  {
    if hit.None? then "" else Token(regs[hit.value + |name|..])
  }

  function Extracted(regs: string, name: string): string {
    ValueAt(regs, name, Hit(regs, name, 0))
  }

  lemma {:induction false} TokenRunsTo(val: string, end: nat)
    requires end <= |val| && forall k :: 0 <= k < end ==> !IsRegisterBoundary(val[k])
    requires end < |val| ==> IsRegisterBoundary(val[end])
    ensures Token(val) == val[..end]
  {
    if end > 0 {
      TokenRunsTo(val[1..], end - 1);
      assert val[..end] == [val[0]] + val[1..][..end - 1];
    }
  }

  method ReadToken(val: string) returns (token: string)
    ensures token == Token(val)
  {
    var end := 0;
    while end < |val| && !IsRegisterBoundary(val[end])
      invariant 0 <= end <= |val|
      invariant forall k :: 0 <= k < end ==> !IsRegisterBoundary(val[k])
    {
      end := end + 1;
    }
    TokenRunsTo(val, end);
    return val[..end];
  }

  method ExtractRegister(regs: string, name: string) returns (value: string)
    ensures value == Extracted(regs, name)
  {
    var hit := FindHit(regs, name);
    if hit.None? {
      return "";
    }
    value := ReadToken(regs[hit.value + |name|..]);
  }

  method FindHit(regs: string, name: string) returns (at: Option<nat>)
    ensures at == Hit(regs, name, 0)
  {
    var i: nat := 0;
    while true
      invariant i <= |regs| && (name == "" ==> i == 0)
      invariant Hit(regs, name, i) == Hit(regs, name, 0)
      decreases |regs| - i
    {
      at := Index(regs, name, i);
      if at.None? || at.value == 0 || IsRegisterBoundary(regs[at.value - 1]) {
        return;
      }
      HitSkips(regs, name, i, at.value);
      i := at.value + |name|;
    }
  }

  // ----- What is wanted: the first anchored occurrence

  ghost predicate IsFirstAnchored(regs: string, name: string, k: nat) {
    Anchored(regs, name, k) && forall j: nat :: j < k ==> !Anchored(regs, name, j)
  }

  /** The value is the token after the first anchored occurrence, and "" without one. */
  ghost predicate IsRegisterValue(regs: string, name: string, value: string) {
    && (forall k: nat :: IsFirstAnchored(regs, name, k) ==> value == ValueAt(regs, name, Some(k)))
    && ((forall k: nat :: !Anchored(regs, name, k)) ==> value == "")
  }

  /** The name, shifted right by d, matches its own end, and the shifted copy starts after a
      boundary. */
  predicate OverlapsAt(name: string, d: nat) {
    0 < d < |name| && IsRegisterBoundary(name[d - 1]) && name[d..] == name[..|name| - d]
  }

  predicate OverlapsItself(name: string) {
    exists d :: 0 < d < |name| && OverlapsAt(name, d)
  }

  /** Two occurrences closer than a name's length overlap. */
  lemma CloseOccurrencesOverlap(regs: string, name: string, start: nat, k: nat)
    requires Occurs(regs, name, start) && Anchored(regs, name, k) && start < k < start + |name|
    ensures OverlapsAt(name, k - start)
  {
    var d := k - start;
    assert regs[k - 1] == regs[start + (d - 1)] == name[d - 1];
    forall i | 0 <= i < |name| - d ensures name[d..][i] == name[..|name| - d][i] {
      assert regs[k + i] == regs[start + (d + i)] == name[d + i];
    }
  }

  /** Without an overlap the skip loses nothing: the hit is the first anchored occurrence. */
  lemma {:induction false} SkipLosesNothing(regs: string, name: string, i: nat)
    requires i <= |regs| && (name == "" ==> i == 0) && !OverlapsItself(name)
    ensures var at := Hit(regs, name, i);
            forall k: nat :: i <= k && (at.Some? ==> k < at.value) ==> !Anchored(regs, name, k)
    decreases |regs| - i
  {
    var at := Hit(regs, name, i);
    var next := Index(regs, name, i);
    if next.Some? && !Anchored(regs, name, next.value) {
      var start := next.value;
      SkipLosesNothing(regs, name, start + |name|);
      forall k: nat | i <= k && (at.Some? ==> k < at.value) ensures !Anchored(regs, name, k) {
        if start < k < start + |name| && Anchored(regs, name, k) {
          CloseOccurrencesOverlap(regs, name, start, k);
        }
      }
    }
  }

  lemma FirstAnchoredIsUnique(regs: string, name: string, j: nat, k: nat)
    requires IsFirstAnchored(regs, name, j) && IsFirstAnchored(regs, name, k)
    ensures j == k
  {
  }

  lemma FindsFirstAnchored(regs: string, name: string)
    requires !OverlapsItself(name)
    ensures IsRegisterValue(regs, name, Extracted(regs, name))
  {
    SkipLosesNothing(regs, name, 0);
    var value := Extracted(regs, name);
    match Hit(regs, name, 0)
    case None =>
    case Some(start) =>
      forall k: nat | IsFirstAnchored(regs, name, k) ensures k == start {
        FirstAnchoredIsUnique(regs, name, start, k);
      }
  }

  // ----- An overlapping name is missed in some dump

  function OtherThan(c: char): (o: char)
    ensures o != c && !IsRegisterBoundary(o)
  {
    if c == '0' then '1' else '0'
  }

  /** A dump with an unanchored hit hiding the one anchored hit, whose value is a digit. */
  function HidingDump(name: string, d: nat): string
    requires OverlapsAt(name, d)
  {
    [OtherThan(name[0])] + name[..d] + name + [OtherThan(name[|name| - 1])]
  }

  lemma HiddenHits(name: string, d: nat)
    requires OverlapsAt(name, d)
    ensures var regs := HidingDump(name, d);
            && !Occurs(regs, name, 0)
            && Occurs(regs, name, 1) && !Anchored(regs, name, 1)
            && Anchored(regs, name, 1 + d)
            && forall k: nat :: 1 + |name| <= k ==> !Occurs(regs, name, k)
  {
    var regs := HidingDump(name, d);
    var n := |name|;
    assert regs[0 + 0] != name[0];
    forall i | 0 <= i < n ensures regs[1 + i] == name[i] {
      if i >= d {
        assert name[d..][i - d] == name[..n - d][i - d];
      }
    }
    forall k: nat | 1 + n <= k ensures !Occurs(regs, name, k) {
      if k + n == |regs| {
        assert regs[k + (n - 1)] != name[n - 1];
      }
    }
  }

  lemma HiddenHitIsSkipped(regs: string, name: string)
    requires !Occurs(regs, name, 0) && Occurs(regs, name, 1) && !Anchored(regs, name, 1)
    requires forall k: nat :: 1 + |name| <= k ==> !Occurs(regs, name, k)
    ensures Hit(regs, name, 0) == None
  {
    assert Index(regs, name, 0) == Some(1);
    assert Index(regs, name, 1 + |name|) == None;
  }

  ghost predicate IsLeastOverlap(name: string, d: nat) {
    OverlapsAt(name, d) && forall e: nat :: e < d ==> !OverlapsAt(name, e)
  }

  lemma HiddenRegisterIsMissed(name: string, d: nat)
    requires IsLeastOverlap(name, d)
    ensures var regs := HidingDump(name, d);
            Extracted(regs, name) == "" && !IsRegisterValue(regs, name, "")
  {
    var regs := HidingDump(name, d);
    HiddenHits(name, d);
    HiddenHitIsSkipped(regs, name);
    forall k: nat | k < 1 + d ensures !Anchored(regs, name, k) {
      if 1 < k && Anchored(regs, name, k) {
        CloseOccurrencesOverlap(regs, name, 1, k);
      }
    }
    assert IsFirstAnchored(regs, name, 1 + d);
    assert |ValueAt(regs, name, Some(1 + d))| > 0;
  }

  lemma {:induction false} LeastOverlap(name: string, d: nat) returns (least: nat)
    requires OverlapsAt(name, d)
    ensures IsLeastOverlap(name, least)
  {
    if e: nat :| e < d && OverlapsAt(name, e) {
      least := LeastOverlap(name, e);
    } else {
      least := d;
    }
  }

  /** The search is right on every dump exactly for names that do not overlap themselves
      across a boundary. */
  lemma SearchIsRightIff(name: string)
    ensures (forall regs :: IsRegisterValue(regs, name, Extracted(regs, name)))
            <==> !OverlapsItself(name)
  {
    if OverlapsItself(name) {
      var d :| 0 < d < |name| && OverlapsAt(name, d);
      var least := LeastOverlap(name, d);
      HiddenRegisterIsMissed(name, least);
    } else {
      forall regs ensures IsRegisterValue(regs, name, Extracted(regs, name)) {
        FindsFirstAnchored(regs, name);
      }
    }
  }

  /** Register names are free of whitespace, so theirs is always right. */
  lemma WhitespaceFreeNamesAreSafe(regs: string, name: string)
    requires forall i :: 0 <= i < |name| ==> !IsRegisterBoundary(name[i])
    ensures IsRegisterValue(regs, name, Extracted(regs, name))
  {
    SearchIsRightIff(name);
  }

  // ----- Reading a dump

  /** Space, newline, tab and carriage return separate registers. */
  predicate Separates(c: char) {
    c as int == 32 || c as int == 10 || c as int == 9 || c as int == 13
  }

  ghost predicate IsToken(s: string) {
    forall i :: 0 <= i < |s| ==> !Separates(s[i])
  }

  lemma SeparatorsAreBoundaries(c: char)
    ensures Separates(c) <==> IsRegisterBoundary(c)
  {
  }

  lemma TokenOfValue(value: string, after: string)
    requires IsToken(value) && (after == "" || Separates(after[0]))
    ensures Token(value + after) == value
  {
    var tail := value + after;
    assert forall k :: 0 <= k < |value| ==> tail[k] == value[k];
    TokenRunsTo(tail, |value|);
    assert tail[..|value|] == value;
  }

  lemma RegisterStands(regs: string, before: string, name: string, rest: string)
    requires regs == before + (name + rest) && (before == "" || Separates(before[|before| - 1]))
    requires forall k: nat :: k < |before| && Occurs(regs, name, k) ==> k > 0 && !Separates(regs[k - 1])
    ensures IsFirstAnchored(regs, name, |before|) && regs[|before| + |name|..] == rest
  {
    assert forall i :: 0 <= i < |name| ==> regs[|before| + i] == name[i];
    assert before != "" ==> regs[|before| - 1] == before[|before| - 1];
  }

  lemma ValueOfFirst(regs: string, name: string, k: nat)
    requires IsToken(name) && IsFirstAnchored(regs, name, k)
    ensures k + |name| <= |regs| && Extracted(regs, name) == Token(regs[k + |name|..])
  {
    assert forall i :: 0 <= i < |name| ==> !Separates(name[i]);
    WhitespaceFreeNamesAreSafe(regs, name);
  }

  /** Where a name free of separators stands first at the start of the text or behind a separator,
      the value is what follows it up to the next separator. */
  lemma RegisterIsRead(regs: string, before: string, name: string, value: string, after: string)
    requires regs == before + (name + (value + after)) && IsToken(name) && IsToken(value)
    requires before == "" || Separates(before[|before| - 1])
    requires after == "" || Separates(after[0])
    requires forall k: nat :: k < |before| && Occurs(regs, name, k) ==> k > 0 && !Separates(regs[k - 1])
    ensures Extracted(regs, name) == value
  {
    RegisterStands(regs, before, name, value + after);
    ValueOfFirst(regs, name, |before|);
    TokenOfValue(value, after);
  }
}
