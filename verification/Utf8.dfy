/** UTF-8 as Go reads it: the encoding of RFC 3629, section 3, byte by byte where it is broken. */
module Utf8 {
  import opened Bytes

  /** Unicode scalar values. */
  type Scalar = c: int | 0 <= c < 0xD800 || 0xE000 <= c < 0x11_0000 witness 0

  predicate IsContinuation(b: byte) {
    0x80 <= b < 0xC0
  }

  /** How many bytes the character at the start takes; 0 if none is well-formed there. */
  function Width(s: seq<byte>): (w: nat)
    ensures w <= 4 && w <= |s|
  {
    if |s| >= 1 && s[0] < 0x80 then 1
    else if |s| >= 2 && 0xC2 <= s[0] < 0xE0 && IsContinuation(s[1]) then 2
    else if |s| >= 3 && 0xE0 <= s[0] < 0xF0 && IsSecond(s[0], s[1]) && IsContinuation(s[2]) then 3
    else if |s| >= 4 && 0xF0 <= s[0] < 0xF5 && IsSecond(s[0], s[1]) && IsContinuation(s[2])
            && IsContinuation(s[3]) then 4
    else 0
  }

  /** The second byte's range, which keeps out overlong forms, surrogates and what lies past
      0x10FFFF. */
  predicate IsSecond(first: byte, second: byte) {
    && IsContinuation(second)
    && (first == 0xE0 ==> second >= 0xA0) && (first == 0xED ==> second < 0xA0)
    && (first == 0xF0 ==> second >= 0x90) && (first == 0xF4 ==> second < 0x90)
  }

  predicate Valid(s: seq<byte>)
    decreases |s|
  {
    s == [] || (Width(s) > 0 && Valid(s[Width(s)..]))
  }

  const REPLACEMENT: seq<byte> := [0xEF, 0xBF, 0xBD] // U+FFFD

  /** Every byte that starts no character replaced by U+FFFD. */
  function Repaired(s: seq<byte>): seq<byte>
    decreases |s|
  {
    if s == [] then []
    else if Width(s) == 0 then REPLACEMENT + Repaired(s[1..])
    else s[..Width(s)] + Repaired(s[Width(s)..])
  }

  /** A character is read alike whatever follows it. */
  lemma WidthOfPrefix(s: seq<byte>, t: seq<byte>)
    requires 0 < Width(s) <= |t| && s[..Width(s)] == t[..Width(s)]
    ensures Width(t) == Width(s)
  {
    assert forall i :: 0 <= i < Width(s) ==> s[i] == s[..Width(s)][i] == t[..Width(s)][i] == t[i];
  }

  lemma ContinuationsFollow(s: seq<byte>, k: nat)
    requires k < Width(s)
    ensures IsContinuation(s[k]) <==> k > 0
  {
  }

  /** A character cut short is none. */
  lemma CutCharacter(s: seq<byte>, k: nat)
    requires 0 < k < Width(s)
    ensures Width(s[..k]) == 0
  {
  }

  lemma {:induction false} RepairedIsValid(s: seq<byte>)
    ensures Valid(Repaired(s))
    decreases |s|
  {
    if s != [] {
      var front := if Width(s) == 0 then REPLACEMENT else s[..Width(s)];
      var rest := Repaired(s[if Width(s) == 0 then 1 else Width(s)..]);
      RepairedIsValid(s[if Width(s) == 0 then 1 else Width(s)..]);
      if Width(s) == 0 {
        assert Width(REPLACEMENT) == 3;
        WidthOfPrefix(REPLACEMENT, front + rest);
      } else {
        WidthOfPrefix(s, front + rest);
      }
      assert (front + rest)[|front|..] == rest;
    }
  }

  /** Only valid text is left as it is. */
  lemma {:induction false} RepairedOfValid(s: seq<byte>)
    requires Valid(s)
    ensures Repaired(s) == s
    decreases |s|
  {
    if s != [] {
      RepairedOfValid(s[Width(s)..]);
    }
  }

  lemma SplitConcat(a: seq<byte>, b: seq<byte>, k: nat)
    requires k <= |a|
    ensures (a + b)[..k] == a[..k] && (a + b)[k..] == a[k..] + b
  {
  }

  lemma {:induction false} ValidTogether(a: seq<byte>, b: seq<byte>)
    requires Valid(a) && Valid(b)
    ensures Valid(a + b)
    decreases |a|
  {
    if a == [] {
      assert a + b == b;
    } else {
      var w := Width(a);
      ValidTogether(a[w..], b);
      SplitConcat(a, b, w);
      WidthOfPrefix(a, a + b);
    }
  }

  /** Valid text may be cut exactly where no continuation byte follows. */
  lemma {:induction false} CutIsValidIff(s: seq<byte>, k: nat)
    requires Valid(s) && k <= |s|
    ensures Valid(s[..k]) <==> k == |s| || !IsContinuation(s[k])
    decreases |s|
  {
    if s != [] {
      var w := Width(s);
      if k == 0 {
        ContinuationsFollow(s, 0);
      } else if k < w {
        ContinuationsFollow(s, k);
        CutCharacter(s, k);
      } else {
        assert s[..k][..w] == s[..w] && s[..k][w..] == s[w..][..k - w];
        WidthOfPrefix(s, s[..k]);
        CutIsValidIff(s[w..], k - w);
      }
    }
  }

  lemma AsciiByte(s: seq<byte>)
    requires s != [] && s[0] < 0x80
    ensures Width(s) == 1
  {
  }

  lemma {:induction false} AsciiIsValid(s: seq<byte>)
    requires forall i :: 0 <= i < |s| ==> s[i] < 0x80
    ensures Valid(s)
  {
    if s != [] {
      AsciiByte(s);
      AsciiIsValid(s[1..]);
    }
  }

  lemma Regroup(a: seq<byte>, k: nat, x: seq<byte>)
    requires k <= |a|
    ensures a[..k] + (a[k..] + x) == a + x
  {
  }

  /** Valid text in front of what is repaired stays. */
  lemma {:induction false} RepairedAfterValid(a: seq<byte>, s: seq<byte>)
    requires Valid(a)
    ensures Repaired(a + s) == a + Repaired(s)
    decreases |a|
  {
    if a == [] {
      assert a + s == s && [] + Repaired(s) == Repaired(s);
    } else {
      var w := Width(a);
      SplitConcat(a, s, w);
      WidthOfPrefix(a, a + s);
      RepairedAfterValid(a[w..], s);
      Regroup(a, w, Repaired(s));
    }
  }

  /** Repairing lengthens all but valid text. */
  lemma {:induction false} RepairedGrows(s: seq<byte>)
    ensures |Repaired(s)| >= |s| && (|Repaired(s)| == |s| <==> Valid(s))
    decreases |s|
  {
    if s != [] {
      RepairedGrows(s[if Width(s) == 0 then 1 else Width(s)..]);
    }
  }

  lemma ShortStart(s: seq<byte>, r: seq<byte>)
    requires Width(s) == 0 && s <= r && REPLACEMENT <= r
    ensures |s| < 3
  {
    if |s| >= 3 {
      StartsAlike(s, r);
      WidthOfPrefix(REPLACEMENT, s);
    }
  }

  lemma StartsAlike(s: seq<byte>, r: seq<byte>)
    requires |s| >= 3 && s <= r && REPLACEMENT <= r
    ensures Width(REPLACEMENT) == 3 && REPLACEMENT[..3] == s[..3]
  {
    assert s[..3] == r[..3];
  }

  /** Where text is the start of its own repaired form without being valid, it ends inside a
      U+FFFD. */
  lemma {:induction false} PrefixOfRepaired(s: seq<byte>)
    requires s <= Repaired(s) && !Valid(s)
    ensures |s| < |Repaired(s)| && IsContinuation(Repaired(s)[|s|])
    decreases |s|
  {
    var w, r := Width(s), Repaired(s);
    if w == 0 {
      assert forall i :: 0 <= i < 3 ==> r[i] == REPLACEMENT[i];
      ShortStart(s, r);
    } else {
      var rest := Repaired(s[w..]);
      assert r[w..] == rest && s[w..] == r[w..|s|];
      PrefixOfRepaired(s[w..]);
      assert rest[|s| - w] == r[|s|];
    }
  }

  /** A character and a valid start of what follows it are a valid start. */
  lemma ValidFront(s: seq<byte>, i: nat)
    requires 0 < Width(s) <= Width(s) + i <= |s| && Valid(s[Width(s)..][..i])
    ensures Valid(s[..Width(s) + i]) && s[Width(s) + i..] == s[Width(s)..][i..]
  {
    var w := Width(s);
    var front := s[..w + i];
    assert front[..w] == s[..w] && front[w..] == s[w..][..i];
    WidthOfPrefix(s, front);
  }

  /** A cut where a continuation byte follows leaves a fragment of the character it falls in. */
  lemma {:induction false} CutInside(s: seq<byte>, k: nat) returns (j: nat)
    requires Valid(s) && k < |s| && IsContinuation(s[k])
    ensures j < k && Valid(s[..j]) && k < j + Width(s[j..])
    decreases |s|
  {
    var w := Width(s);
    if k < w {
      ContinuationsFollow(s, k);
      j := 0;
      assert s[0..] == s;
    } else {
      var i := CutInside(s[w..], k - w);
      j := w + i;
      ValidFront(s, i);
    }
  }

  /** A fragment is repaired to U+FFFD first of all. */
  lemma FragmentIsReplaced(c: seq<byte>, k: nat)
    requires 0 < k < Width(c)
    ensures REPLACEMENT <= Repaired(c[..k])
  {
    CutCharacter(c, k);
  }

  // ----- Encoding

  /** One character as bytes (RFC 3629, section 3). */
  function EncodeChar(c: Scalar): (bytes: seq<byte>)
    ensures 1 <= |bytes| <= 4
  {
    if c < 0x80 then [c]
    else if c < 0x800 then [0xC0 + c / 0x40, 0x80 + c % 0x40]
    else if c < 0x1_0000 then [0xE0 + c / 0x1000, 0x80 + c / 0x40 % 0x40, 0x80 + c % 0x40]
    else [0xF0 + c / 0x4_0000, 0x80 + c / 0x1000 % 0x40, 0x80 + c / 0x40 % 0x40, 0x80 + c % 0x40]
  }

  function Encode(text: seq<Scalar>): seq<byte> {
    if text == [] then [] else EncodeChar(text[0]) + Encode(text[1..])
  }

  lemma ThreeBytes(c: Scalar)
    requires 0x800 <= c < 0x1_0000
    ensures var s := EncodeChar(c); 0xE0 <= s[0] < 0xF0 && IsSecond(s[0], s[1]) && IsContinuation(s[2])
  {
    var high, low := c / 0x1000, c % 0x1000;
    assert c / 0x40 % 0x40 == low / 0x40;
  }

  lemma FourBytes(c: Scalar)
    requires 0x1_0000 <= c
    ensures var s := EncodeChar(c);
            && 0xF0 <= s[0] < 0xF5 && IsSecond(s[0], s[1])
            && IsContinuation(s[2]) && IsContinuation(s[3])
  {
    var high, low := c / 0x4_0000, c % 0x4_0000;
    assert c / 0x1000 % 0x40 == low / 0x1000;
  }

  lemma EncodedWidth(c: Scalar)
    ensures Width(EncodeChar(c)) == |EncodeChar(c)|
  {
    if 0x800 <= c < 0x1_0000 {
      ThreeBytes(c);
    } else if c >= 0x1_0000 {
      FourBytes(c);
    }
  }

  /** The character that a well-formed start encodes. */
  lemma CharacterAt(s: seq<byte>) returns (c: Scalar)
    requires Width(s) > 0
    ensures EncodeChar(c) == s[..Width(s)]
  {
    var w := Width(s);
    if w == 1 {
      c := s[0];
    } else if w == 2 {
      c := (s[0] as int - 0xC0) * 0x40 + (s[1] as int - 0x80);
    } else if w == 3 {
      c := ThreeBytesAt(s);
    } else {
      c := FourBytesAt(s);
    }
  }

  lemma ThreeBytesAt(s: seq<byte>) returns (c: Scalar)
    requires Width(s) == 3
    ensures EncodeChar(c) == s[..3]
  {
    var a, b, d := s[0] as int - 0xE0, s[1] as int - 0x80, s[2] as int - 0x80;
    c := a * 0x1000 + b * 0x40 + d;
    assert c / 0x1000 == a && c / 0x40 == a * 0x40 + b && c % 0x40 == d;
  }

  lemma FourBytesAt(s: seq<byte>) returns (c: Scalar)
    requires Width(s) == 4
    ensures EncodeChar(c) == s[..4]
  {
    var a, b := s[0] as int - 0xF0, s[1] as int - 0x80;
    var d, e := s[2] as int - 0x80, s[3] as int - 0x80;
    c := a * 0x4_0000 + b * 0x1000 + d * 0x40 + e;
    assert c / 0x4_0000 == a && c / 0x1000 == a * 0x40 + b;
    assert c / 0x40 == a * 0x1000 + b * 0x40 + d && c % 0x40 == e;
  }

  lemma {:induction false} EncodedIsValid(text: seq<Scalar>)
    ensures Valid(Encode(text))
  {
    if text != [] {
      var first, rest := EncodeChar(text[0]), Encode(text[1..]);
      EncodedIsValid(text[1..]);
      EncodedWidth(text[0]);
      SplitConcat(first, rest, |first|);
      assert first[|first|..] + rest == rest;
      WidthOfPrefix(first, first + rest);
    }
  }

  lemma {:induction false} ValidIsEncoded(s: seq<byte>) returns (text: seq<Scalar>)
    requires Valid(s)
    ensures Encode(text) == s
    decreases |s|
  {
    if s == [] {
      text := [];
    } else {
      var w := Width(s);
      var c := CharacterAt(s);
      var rest := ValidIsEncoded(s[w..]);
      text := [c] + rest;
      assert text[1..] == rest && s[..w] + s[w..] == s;
    }
  }

  /** Valid texts are exactly the encoded ones. */
  lemma ValidIff(s: seq<byte>)
    ensures Valid(s) <==> exists text :: Encode(text) == s
  {
    if Valid(s) {
      var text := ValidIsEncoded(s);
    }
    forall text | Encode(text) == s ensures Valid(s) {
      EncodedIsValid(text);
    }
  }
}
