/**
 * What the cache key's stream determines: which recipes can be told apart by it, and which
 * collide.
 */
module CacheKeyProperties {
  import opened CacheKey
  import opened Splitting

  ghost predicate NulFree(s: string) {
    NUL !in s
  }

  ghost predicate RecipeNulFree(r: Recipe) {
    && NulFree(r.image) && NulFree(r.user) && NulFree(r.dockerfile) && NulFree(r.fingerprint)
    && (forall k :: k in r.buildArgs ==> NulFree(k) && NulFree(r.buildArgs[k]))
    && (forall k :: k in r.contextFiles ==> NulFree(k) && NulFree(r.contextFiles[k]))
  }

  ghost predicate SameKeys(a: Recipe, b: Recipe) {
    a.buildArgs.Keys == b.buildArgs.Keys && a.contextFiles.Keys == b.contextFiles.Keys
  }

  lemma Terminated(a: string, x: string, b: string, y: string)
    requires NulFree(a) && NulFree(b) && a + [NUL] + x == b + [NUL] + y
    ensures a == b && x == y
  {
    ConcatIsAssociative(a, [NUL], x);
    ConcatIsAssociative(b, [NUL], y);
    HeadIsUnique(a, x, b, y, NUL);
  }

  lemma TaggedKeyIsNulFree(r: Recipe, key: string)
    requires RecipeNulFree(r) && IsTagged(r, key)
    ensures NulFree(key) && NulFree(Value(r, key))
  {
    if "arg:" <= key {
      assert key == "arg:" + key[4..];
    } else {
      assert key == "file:" + key[5..];
    }
  }

  lemma LessHeads(a: string, b: string)
    requires Less(a, b) && a != ""
    ensures b != "" && a[0] <= b[0]
  {
  }

  /** Arguments come before files. */
  lemma FilesComeLast(ks: seq<string>, r: Recipe, i: nat, j: nat)
    requires Ascending(ks) && AllTagged(r, ks) && i < j < |ks| && !("arg:" <= ks[i])
    ensures !("arg:" <= ks[j])
  {
    assert Less(ks[i], ks[j]);
    LessHeads(ks[i], ks[j]);
  }

  lemma ArgEntryDetermines(key: string, v: string, x: string, w: string, y: string)
    requires NulFree(key) && NulFree(v) && NulFree(w)
    requires key + "=" + v + [NUL] + x == key + "=" + w + [NUL] + y
    ensures v == w && x == y
  {
    Terminated(key + "=" + v, x, key + "=" + w, y);
    CancelHead(key + "=", v, w);
  }

  /** File contents are not terminated: the next file's key, itself terminated, ends them. */
  lemma FileEntryDetermines(c: string, d: string, next: string, x: string, y: string)
    requires NulFree(c) && NulFree(d) && NulFree(next)
    requires c + (next + [NUL] + x) == d + (next + [NUL] + y)
    ensures c == d && x == y
  {
    assert c + (next + [NUL] + x) == (c + next) + [NUL] + x;
    assert d + (next + [NUL] + y) == (d + next) + [NUL] + y;
    Terminated(c + next, x, d + next, y);
    CancelTail(c, d, next);
  }

  lemma FileBody(r: Recipe, ks: seq<string>, i: nat)
    requires i < |ks| && AllTagged(r, ks) && !("arg:" <= ks[i])
    ensures BodyFrom(r, ks, i) == ks[i] + [NUL] + (Value(r, ks[i]) + BodyFrom(r, ks, i + 1))
  {
    var key, v, rest := ks[i], Value(r, ks[i]), BodyFrom(r, ks, i + 1);
    assert key + [NUL] + v + rest == key + [NUL] + (v + rest);
  }

  lemma ArgBody(r: Recipe, ks: seq<string>, i: nat)
    requires i < |ks| && AllTagged(r, ks) && "arg:" <= ks[i]
    ensures BodyFrom(r, ks, i) == ks[i] + "=" + Value(r, ks[i]) + [NUL] + BodyFrom(r, ks, i + 1)
  {
  }

  lemma EntryDetermines(a: Recipe, b: Recipe, ks: seq<string>, i: nat)
    requires i < |ks| && Ascending(ks) && AllTagged(a, ks) && AllTagged(b, ks)
    requires RecipeNulFree(a) && RecipeNulFree(b)
    requires BodyFrom(a, ks, i) == BodyFrom(b, ks, i)
    ensures Value(a, ks[i]) == Value(b, ks[i]) && BodyFrom(a, ks, i + 1) == BodyFrom(b, ks, i + 1)
  {
    var key := ks[i];
    TaggedKeyIsNulFree(a, key);
    TaggedKeyIsNulFree(b, key);
    var v, w := Value(a, key), Value(b, key);
    var x, y := BodyFrom(a, ks, i + 1), BodyFrom(b, ks, i + 1);
    if "arg:" <= key {
      ArgBody(a, ks, i);
      ArgBody(b, ks, i);
      ArgEntryDetermines(key, v, x, w, y);
    } else {
      FileBody(a, ks, i);
      FileBody(b, ks, i);
      CancelHead(key + [NUL], v + x, w + y);
      if i + 1 == |ks| {
        assert v == v + x && w == w + y;
      } else {
        var next := ks[i + 1];
        FilesComeLast(ks, a, i, i + 1);
        TaggedKeyIsNulFree(a, next);
        FileBody(a, ks, i + 1);
        FileBody(b, ks, i + 1);
        FileEntryDetermines(v, w, next,
                            Value(a, next) + BodyFrom(a, ks, i + 2), Value(b, next) + BodyFrom(b, ks, i + 2));
      }
    }
  }

  // ----- From entries to bodies

  /** Where two bodies agree, they begin with the same entry and go on alike. */
  ghost predicate EntryIsFixed(a: Recipe, ks: seq<string>, b: Recipe, ls: seq<string>, i: nat)
    requires i < |ks| && i < |ls|
  {
    BodyFrom(a, ks, i) == BodyFrom(b, ls, i) ==>
      && ks[i] == ls[i] && Value(a, ks[i]) == Value(b, ls[i])
      && BodyFrom(a, ks, i + 1) == BodyFrom(b, ls, i + 1)
  }

  ghost predicate EntriesAreFixed(a: Recipe, ks: seq<string>, b: Recipe, ls: seq<string>) {
    forall i :: 0 <= i < |ks| && i < |ls| ==> EntryIsFixed(a, ks, b, ls, i)
  }

  lemma BodyHasNul(r: Recipe, ks: seq<string>, i: nat)
    requires i < |ks| && AllTagged(r, ks)
    ensures NUL in BodyFrom(r, ks, i)
  {
    assert NUL in Entry(r, ks[i]);
  }

  lemma EndTogether(a: Recipe, ks: seq<string>, b: Recipe, ls: seq<string>, i: nat)
    requires i <= |ks| && i <= |ls| && (i == |ks| || i == |ls|) && AllTagged(a, ks) && AllTagged(b, ls)
    requires BodyFrom(a, ks, i) == BodyFrom(b, ls, i)
    ensures |ks| == |ls|
  {
    if i < |ls| {
      BodyHasNul(b, ls, i);
    }
    if i < |ks| {
      BodyHasNul(a, ks, i);
    }
  }

  /** Then equal bodies have the same entries throughout. */
  lemma {:induction false} BodyFixesEntries(a: Recipe, ks: seq<string>, b: Recipe, ls: seq<string>, i: nat)
    requires i <= |ks| && i <= |ls| && AllTagged(a, ks) && AllTagged(b, ls)
    requires EntriesAreFixed(a, ks, b, ls) && BodyFrom(a, ks, i) == BodyFrom(b, ls, i)
    ensures |ks| == |ls|
    ensures forall j :: i <= j < |ks| ==> ks[j] == ls[j] && Value(a, ks[j]) == Value(b, ls[j])
    decreases |ks| - i
  {
    if i == |ks| || i == |ls| {
      EndTogether(a, ks, b, ls, i);
    } else {
      assert EntryIsFixed(a, ks, b, ls, i);
      BodyFixesEntries(a, ks, b, ls, i + 1);
    }
  }

  lemma HeaderDetermines(a: Recipe, x: string, b: Recipe, y: string)
    requires RecipeNulFree(a) && RecipeNulFree(b) && Header(a) + x == Header(b) + y
    ensures a.image == b.image && a.user == b.user && a.dockerfile == b.dockerfile
    ensures a.fingerprint == b.fingerprint && x == y
  {
    var a4, b4 := a.fingerprint + [NUL] + x, b.fingerprint + [NUL] + y;
    var a3, b3 := a.dockerfile + [NUL] + a4, b.dockerfile + [NUL] + b4;
    var a2, b2 := a.user + [NUL] + a3, b.user + [NUL] + b3;
    assert Header(a) + x == a.image + [NUL] + a2;
    assert Header(b) + y == b.image + [NUL] + b2;
    Terminated(a.image, a2, b.image, b2);
    Terminated(a.user, a3, b.user, b3);
    Terminated(a.dockerfile, a4, b.dockerfile, b4);
    Terminated(a.fingerprint, x, b.fingerprint, y);
  }

  /** Over recipes with the same keys and no NUL anywhere, streams are equal exactly for equal
      recipes: every change of a value invalidates. */
  lemma StreamDeterminesValues(a: Recipe, s: string, b: Recipe, t: string)
    requires SameKeys(a, b) && RecipeNulFree(a) && RecipeNulFree(b)
    requires IsStream(a, s) && IsStream(b, t)
    ensures s == t <==> a == b
  {
    var ks :| Lists(ks, a) && AllTagged(a, ks) && s == Header(a) + BodyFrom(a, ks, 0);
    var ls :| Lists(ls, b) && AllTagged(b, ls) && t == Header(b) + BodyFrom(b, ls, 0);
    assert forall key :: IsTagged(a, key) <==> IsTagged(b, key);
    ListingIsUnique(ks, ls);
    if s == t {
      HeaderDetermines(a, BodyFrom(a, ks, 0), b, BodyFrom(b, ks, 0));
      forall i | 0 <= i < |ks| ensures EntryIsFixed(a, ks, b, ks, i) {
        if BodyFrom(a, ks, i) == BodyFrom(b, ks, i) {
          EntryDetermines(a, b, ks, i);
        }
      }
      BodyFixesEntries(a, ks, b, ks, 0);
      SameValues(a, b, ks);
    }
  }

  lemma SameValues(a: Recipe, b: Recipe, ks: seq<string>)
    requires SameKeys(a, b) && Lists(ks, a) && AllTagged(a, ks) && AllTagged(b, ks)
    requires forall j :: 0 <= j < |ks| ==> Value(a, ks[j]) == Value(b, ks[j])
    ensures a.buildArgs == b.buildArgs && a.contextFiles == b.contextFiles
  {
    forall k | k in a.buildArgs ensures a.buildArgs[k] == b.buildArgs[k] {
      TagIsInjective("arg:", k);
      assert IsTagged(a, "arg:" + k);
    }
    forall k | k in a.contextFiles ensures a.contextFiles[k] == b.contextFiles[k] {
      TagIsInjective("file:", k);
      TagsDiffer("file:" + k);
      assert IsTagged(a, "file:" + k);
    }
  }

  // ----- Recipes with keys of their own

  /** The text "file:" stands at position i. */
  predicate TagAt(s: string, i: nat) {
    i + 5 <= |s| && s[i] == 'f' && s[i + 1] == 'i' && s[i + 2] == 'l' && s[i + 3] == 'e' && s[i + 4] == ':'
  }

  ghost predicate TagFree(s: string) {
    forall i: nat :: i + 5 <= |s| ==> !TagAt(s, i)
  }

  /** No argument name contains the sign that ends it, and no contents but those of the last
      file the tag of the key that ends them. */
  ghost predicate Separable(r: Recipe) {
    && (forall k :: k in r.buildArgs ==> '=' !in k)
    && (forall k, l :: k in r.contextFiles && l in r.contextFiles && Less(k, l) ==> TagFree(r.contextFiles[k]))
  }

  /** The tag does not overlap itself, so the first one ends a text that is free of it. */
  lemma FirstTagDiffers(v: string, n: string, w: string, m: string)
    requires TagFree(w) && |v| < |w|
    ensures v + ("file:" + n) != w + ("file:" + m)
  {
    var s, t, d := v + ("file:" + n), w + ("file:" + m), |w| - |v|;
    assert s[|v|] == 'f' && s[|v| + 1] == 'i' && s[|v| + 2] == 'l' && s[|v| + 3] == 'e' && s[|v| + 4] == ':';
    if d >= 5 {
      assert !TagAt(w, |v|);
      assert forall i :: 0 <= i < |w| ==> t[i] == w[i];
    } else {
      assert t[|v| + d] == 'f';
    }
  }

  lemma FirstTagIsUnique(v: string, n: string, w: string, m: string)
    requires TagFree(v) && TagFree(w) && v + ("file:" + n) == w + ("file:" + m)
    ensures v == w && n == m
  {
    if |v| < |w| {
      FirstTagDiffers(v, n, w, m);
    } else if |w| < |v| {
      FirstTagDiffers(w, m, v, n);
    }
    assert v == (v + ("file:" + n))[..|v|] && w == (w + ("file:" + m))[..|w|];
    CancelHead(v, "file:" + n, "file:" + m);
    CancelHead("file:", n, m);
  }

  lemma {:induction false} LessBehind(prefix: string, a: string, b: string)
    requires Less(prefix + a, prefix + b)
    ensures Less(a, b)
  {
    if prefix == "" {
      assert "" + a == a && "" + b == b;
    } else {
      assert (prefix + a)[1..] == prefix[1..] + a && (prefix + b)[1..] == prefix[1..] + b;
      LessBehind(prefix[1..], a, b);
    }
  }

  /** Contents that another file follows are free of the tag. */
  lemma FollowedContentsAreTagFree(r: Recipe, ks: seq<string>, i: nat)
    requires Separable(r) && Ascending(ks) && AllTagged(r, ks) && i + 1 < |ks| && !("arg:" <= ks[i])
    ensures !("arg:" <= ks[i + 1]) && TagFree(Value(r, ks[i]))
  {
    FilesComeLast(ks, r, i, i + 1);
    var k, l := ks[i][5..], ks[i + 1][5..];
    assert ks[i] == "file:" + k && ks[i + 1] == "file:" + l && Less(ks[i], ks[i + 1]);
    LessBehind("file:", k, l);
  }

  /** Two files at the heads of equal texts. */
  lemma FileHeads(a: Recipe, ks: seq<string>, b: Recipe, ls: seq<string>, i: nat)
    requires i < |ks| && i < |ls| && Ascending(ks) && Ascending(ls) && AllTagged(a, ks) && AllTagged(b, ls)
    requires RecipeNulFree(a) && RecipeNulFree(b) && Separable(a) && Separable(b)
    requires !("arg:" <= ks[i]) && !("arg:" <= ls[i]) && BodyFrom(a, ks, i) == BodyFrom(b, ls, i)
    ensures ks[i] == ls[i] && Value(a, ks[i]) == Value(b, ls[i])
    ensures BodyFrom(a, ks, i + 1) == BodyFrom(b, ls, i + 1)
  {
    var v, w, x, y := Value(a, ks[i]), Value(b, ls[i]), BodyFrom(a, ks, i + 1), BodyFrom(b, ls, i + 1);
    TaggedKeyIsNulFree(a, ks[i]);
    TaggedKeyIsNulFree(b, ls[i]);
    FileBody(a, ks, i);
    FileBody(b, ls, i);
    Terminated(ks[i], v + x, ls[i], w + y);
    if i + 1 == |ks| || i + 1 == |ls| {
      LastContents(a, ks, b, ls, i);
    } else {
      FollowedContents(a, ks, b, ls, i);
    }
  }

  lemma LastContents(a: Recipe, ks: seq<string>, b: Recipe, ls: seq<string>, i: nat)
    requires i < |ks| && i < |ls| && AllTagged(a, ks) && AllTagged(b, ls) && (i + 1 == |ks| || i + 1 == |ls|)
    requires NulFree(Value(a, ks[i])) && NulFree(Value(b, ls[i]))
    requires Value(a, ks[i]) + BodyFrom(a, ks, i + 1) == Value(b, ls[i]) + BodyFrom(b, ls, i + 1)
    ensures Value(a, ks[i]) == Value(b, ls[i]) && BodyFrom(a, ks, i + 1) == BodyFrom(b, ls, i + 1)
  {
    var v, w, x, y := Value(a, ks[i]), Value(b, ls[i]), BodyFrom(a, ks, i + 1), BodyFrom(b, ls, i + 1);
    assert (NUL in v + x <==> NUL in x) && (NUL in w + y <==> NUL in y);
    if i + 1 < |ks| {
      BodyHasNul(a, ks, i + 1);
    }
    if i + 1 < |ls| {
      BodyHasNul(b, ls, i + 1);
    }
    assert v + "" == v && w + "" == w;
  }

  lemma FollowedContents(a: Recipe, ks: seq<string>, b: Recipe, ls: seq<string>, i: nat)
    requires i + 1 < |ks| && i + 1 < |ls| && Ascending(ks) && Ascending(ls) && AllTagged(a, ks) && AllTagged(b, ls)
    requires RecipeNulFree(a) && RecipeNulFree(b) && Separable(a) && Separable(b)
    requires !("arg:" <= ks[i]) && !("arg:" <= ls[i])
    requires Value(a, ks[i]) + BodyFrom(a, ks, i + 1) == Value(b, ls[i]) + BodyFrom(b, ls, i + 1)
    ensures Value(a, ks[i]) == Value(b, ls[i]) && BodyFrom(a, ks, i + 1) == BodyFrom(b, ls, i + 1)
  {
    var v, w, x, y := Value(a, ks[i]), Value(b, ls[i]), BodyFrom(a, ks, i + 1), BodyFrom(b, ls, i + 1);
    FollowedContentsAreTagFree(a, ks, i);
    FollowedContentsAreTagFree(b, ls, i);
    var k, l := ks[i + 1], ls[i + 1];
    TaggedKeyIsNulFree(a, ks[i]);
    TaggedKeyIsNulFree(b, ls[i]);
    TaggedKeyIsNulFree(a, k);
    TaggedKeyIsNulFree(b, l);
    FileBody(a, ks, i + 1);
    FileBody(b, ls, i + 1);
    KeyEndsContents(v, k, Value(a, k) + BodyFrom(a, ks, i + 2), w, l, Value(b, l) + BodyFrom(b, ls, i + 2));
    CancelHead(v, x, y);
  }

  /** File contents are ended by the next file's tag, whatever its name. */
  lemma KeyEndsContents(v: string, k: string, x: string, w: string, l: string, y: string)
    requires NulFree(v) && NulFree(w) && NulFree(k) && NulFree(l) && TagFree(v) && TagFree(w)
    requires "file:" <= k && "file:" <= l
    requires v + (k + [NUL] + x) == w + (l + [NUL] + y)
    ensures v == w && k == l
  {
    assert v + (k + [NUL] + x) == (v + k) + [NUL] + x;
    assert w + (l + [NUL] + y) == (w + l) + [NUL] + y;
    Terminated(v + k, x, w + l, y);
    assert k == "file:" + k[5..] && l == "file:" + l[5..];
    FirstTagIsUnique(v, k[5..], w, l[5..]);
  }

  /** Two arguments at the heads of equal texts. */
  lemma ArgHeads(a: Recipe, ks: seq<string>, b: Recipe, ls: seq<string>, i: nat)
    requires i < |ks| && i < |ls| && AllTagged(a, ks) && AllTagged(b, ls)
    requires RecipeNulFree(a) && RecipeNulFree(b) && Separable(a) && Separable(b)
    requires "arg:" <= ks[i] && "arg:" <= ls[i] && BodyFrom(a, ks, i) == BodyFrom(b, ls, i)
    ensures ks[i] == ls[i] && Value(a, ks[i]) == Value(b, ls[i])
    ensures BodyFrom(a, ks, i + 1) == BodyFrom(b, ls, i + 1)
  {
    var k, l, v, w := ks[i], ls[i], Value(a, ks[i]), Value(b, ls[i]);
    TaggedKeyIsNulFree(a, k);
    TaggedKeyIsNulFree(b, l);
    ArgBody(a, ks, i);
    ArgBody(b, ls, i);
    Terminated(k + "=" + v, BodyFrom(a, ks, i + 1), l + "=" + w, BodyFrom(b, ls, i + 1));
    ArgKeyHasNoEquals(a, k);
    ArgKeyHasNoEquals(b, l);
    EqualsEndsName(k, v, l, w);
  }

  lemma ArgKeyHasNoEquals(r: Recipe, key: string)
    requires Separable(r) && IsTagged(r, key) && "arg:" <= key
    ensures '=' !in key
  {
    assert key == "arg:" + key[4..];
  }

  lemma EqualsEndsName(k: string, v: string, l: string, w: string)
    requires '=' !in k && '=' !in l && k + "=" + v == l + "=" + w
    ensures k == l && v == w
  {
    ConcatIsAssociative(k, ['='], v);
    ConcatIsAssociative(l, ['='], w);
    HeadIsUnique(k, v, l, w, '=');
  }

  /** An argument and a file do not start alike. */
  lemma HeadsAreAlike(a: Recipe, ks: seq<string>, b: Recipe, ls: seq<string>, i: nat)
    requires i < |ks| && i < |ls| && AllTagged(a, ks) && AllTagged(b, ls)
    requires BodyFrom(a, ks, i) == BodyFrom(b, ls, i)
    ensures "arg:" <= ks[i] <==> "arg:" <= ls[i]
  {
    assert BodyFrom(a, ks, i)[0] == ks[i][0] && BodyFrom(b, ls, i)[0] == ls[i][0];
  }

  lemma EntriesAtHead(a: Recipe, ks: seq<string>, b: Recipe, ls: seq<string>, i: nat)
    requires i < |ks| && i < |ls| && Ascending(ks) && Ascending(ls) && AllTagged(a, ks) && AllTagged(b, ls)
    requires RecipeNulFree(a) && RecipeNulFree(b) && Separable(a) && Separable(b)
    requires BodyFrom(a, ks, i) == BodyFrom(b, ls, i)
    ensures ks[i] == ls[i] && Value(a, ks[i]) == Value(b, ls[i])
    ensures BodyFrom(a, ks, i + 1) == BodyFrom(b, ls, i + 1)
  {
    HeadsAreAlike(a, ks, b, ls, i);
    if "arg:" <= ks[i] {
      ArgHeads(a, ks, b, ls, i);
    } else {
      FileHeads(a, ks, b, ls, i);
    }
  }

  /** Every change invalidates: over separable recipes without NULs, streams are equal exactly
      for equal recipes, whatever arguments and files each of them has. */
  lemma StreamDeterminesRecipe(a: Recipe, s: string, b: Recipe, t: string)
    requires RecipeNulFree(a) && RecipeNulFree(b) && Separable(a) && Separable(b)
    requires IsStream(a, s) && IsStream(b, t)
    ensures s == t <==> a == b
  {
    if s == t {
      var ks :| Lists(ks, a) && AllTagged(a, ks) && s == Header(a) + BodyFrom(a, ks, 0);
      var ls :| Lists(ls, b) && AllTagged(b, ls) && t == Header(b) + BodyFrom(b, ls, 0);
      HeaderDetermines(a, BodyFrom(a, ks, 0), b, BodyFrom(b, ls, 0));
      forall i | 0 <= i < |ks| && i < |ls| ensures EntryIsFixed(a, ks, b, ls, i) {
        if BodyFrom(a, ks, i) == BodyFrom(b, ls, i) {
          EntriesAtHead(a, ks, b, ls, i);
        }
      }
      BodyFixesEntries(a, ks, b, ls, 0);
      assert ks == ls;
      SameListing(a, b, ks);
      SameValues(a, b, ks);
    } else if a == b {
      StreamIsUnique(a, s, t);
    }
  }

  lemma SameListing(a: Recipe, b: Recipe, ks: seq<string>)
    requires Lists(ks, a) && Lists(ks, b)
    ensures SameKeys(a, b)
  {
    forall k ensures k in a.buildArgs <==> k in b.buildArgs {
      TagIsInjective("arg:", k);
      assert IsTagged(a, "arg:" + k) <==> IsTagged(b, "arg:" + k);
    }
    forall k ensures k in a.contextFiles <==> k in b.contextFiles {
      TagIsInjective("file:", k);
      TagsDiffer("file:" + k);
      assert IsTagged(a, "file:" + k) <==> IsTagged(b, "file:" + k);
    }
  }

  // ----- Where it does not

  /** Contents holding a NUL can imitate the next file's key. */
  lemma ContentsWithNulCollide() returns (a: Recipe, b: Recipe, stream: string)
    ensures SameKeys(a, b) && a != b && IsStream(a, stream) && IsStream(b, stream)
    ensures RecipeNulFree(a.(contextFiles := map[])) && RecipeNulFree(b.(contextFiles := map[]))
  {
    var long := "file:" + "b" + [NUL];
    a := Recipe("", "", "", "", map[], map["a" := "", "b" := long]);
    b := Recipe("", "", "", "", map[], map["a" := long, "b" := ""]);
    assert a.contextFiles["a"] != b.contextFiles["a"];
    stream := Header(a) + ("file:" + "a" + [NUL] + long + long);
    TwoFileStream(a, "a", "b");
    TwoFileStream(b, "a", "b");
    assert "file:" + "a" + [NUL] + "" == "file:" + "a" + [NUL];
    ConcatIsAssociative("file:" + "a" + [NUL], long, long);
    assert long + "" == long;
  }

  lemma {:induction false} LessAfter(prefix: string, a: string, b: string)
    requires Less(a, b)
    ensures Less(prefix + a, prefix + b)
  {
    if prefix == "" {
      assert "" + a == a && "" + b == b;
    } else {
      LessAfter(prefix[1..], a, b);
      assert (prefix + a)[1..] == prefix[1..] + a && (prefix + b)[1..] == prefix[1..] + b;
    }
  }

  lemma TwoFileStream(r: Recipe, k: string, l: string)
    requires r.buildArgs == map[] && r.contextFiles.Keys == {k, l} && Less(k, l)
    ensures IsStream(r, Header(r) + ("file:" + k + [NUL] + r.contextFiles[k]
                                     + ("file:" + l + [NUL] + r.contextFiles[l])))
  {
    var ks := ["file:" + k, "file:" + l];
    LessAfter("file:", k, l);
    TagIsInjective("file:", k);
    TagIsInjective("file:", l);
    TagsDiffer(ks[0]);
    TagsDiffer(ks[1]);
    assert Lists(ks, r);
    assert BodyFrom(r, ks, 1) == Entry(r, ks[1]) + BodyFrom(r, ks, 2);
    assert Entry(r, ks[1]) + "" == Entry(r, ks[1]);
    assert IsStream(r, Header(r) + BodyFrom(r, ks, 0));
  }

  lemma OneArgStream(r: Recipe, k: string)
    requires r.contextFiles == map[] && r.buildArgs.Keys == {k}
    ensures IsStream(r, Header(r) + ("arg:" + k + "=" + r.buildArgs[k] + [NUL]))
  {
    TagIsInjective("arg:", k);
    var ks := ["arg:" + k];
    assert Lists(ks, r);
    assert Entry(r, ks[0]) + BodyFrom(r, ks, 1) == Entry(r, ks[0]);
    assert IsStream(r, Header(r) + BodyFrom(r, ks, 0));
  }

  /** The stream of a recipe with an argument and a file, spelled out. */
  lemma StreamSpelledOut(r: Recipe, k: string, f: string)
    requires r.buildArgs.Keys == {k} && r.contextFiles.Keys == {f}
    ensures IsStream(r, r.image + [NUL] + r.user + [NUL] + r.dockerfile + [NUL] + r.fingerprint + [NUL]
                        + ("arg:" + k + "=" + r.buildArgs[k] + [NUL] + ("file:" + f + [NUL] + r.contextFiles[f])))
  {
    var ks := ["arg:" + k, "file:" + f];
    TagIsInjective("arg:", k);
    TagIsInjective("file:", f);
    TagsDiffer(ks[1]);
    assert ks[0][0] == 'a' && ks[1][0] == 'f' && Less(ks[0], ks[1]);
    assert Lists(ks, r);
    assert BodyFrom(r, ks, 1) == Entry(r, ks[1]) + BodyFrom(r, ks, 2);
    assert Entry(r, ks[1]) + "" == Entry(r, ks[1]);
    assert IsStream(r, Header(r) + BodyFrom(r, ks, 0));
  }

  /** A recipe with one argument, and one with two files. */
  function WithArg(r: Recipe, k: string, v: string): Recipe {
    r.(buildArgs := map[k := v], contextFiles := map[])
  }

  function WithFiles(r: Recipe, k: string, c: string, l: string, d: string): Recipe {
    r.(buildArgs := map[], contextFiles := map[k := c, l := d])
  }

  // ----- Arguments whose name contains an equals sign

  ghost predicate SameEntry(a: Recipe, key: string, b: Recipe, other: string) {
    Entry(a, key) == Entry(b, other)
  }

  ghost predicate SameBodyFrom(a: Recipe, ks: seq<string>, b: Recipe, ls: seq<string>, i: nat)
    requires i <= |ks| == |ls|
  {
    BodyFrom(a, ks, i) == BodyFrom(b, ls, i)
  }

  ghost function Flat(es: seq<string>, i: nat): string
    requires i <= |es|
    decreases |es| - i
  {
    if i == |es| then "" else es[i] + Flat(es, i + 1)
  }

  lemma {:induction false} FlatAgrees(es: seq<string>, fs: seq<string>, i: nat, stop: nat)
    requires i <= stop <= |es| == |fs| && es[i..stop] == fs[i..stop] && Flat(es, stop) == Flat(fs, stop)
    ensures Flat(es, i) == Flat(fs, i)
    decreases stop - i
  {
    if i < stop {
      assert es[i] == es[i..stop][0] == fs[i];
      assert es[i + 1..stop] == es[i..stop][1..] == fs[i + 1..stop];
      FlatAgrees(es, fs, i + 1, stop);
    }
  }

  ghost function Entries(r: Recipe, ks: seq<string>): (es: seq<string>)
    ensures |es| == |ks|
  {
    seq(|ks|, i requires 0 <= i < |ks| => Entry(r, ks[i]))
  }

  lemma {:induction false} BodyIsFlat(r: Recipe, ks: seq<string>, i: nat)
    requires i <= |ks|
    ensures BodyFrom(r, ks, i) == Flat(Entries(r, ks), i)
    decreases |ks| - i
  {
    if i < |ks| {
      BodyIsFlat(r, ks, i + 1);
      var es := Entries(r, ks);
      assert Flat(es, i) == es[i] + Flat(es, i + 1);
    }
  }

  lemma EntryAtIndex(r: Recipe, ks: seq<string>, j: nat)
    requires j < |ks|
    ensures Entries(r, ks)[j] == Entry(r, ks[j])
  {
  }

  lemma SameEntryAt(a: Recipe, ks: seq<string>, b: Recipe, ls: seq<string>, j: nat)
    requires j < |ks| == |ls| && SameEntry(a, ks[j], b, ls[j])
    ensures Entries(a, ks)[j] == Entries(b, ls)[j]
  {
    EntryAtIndex(a, ks, j);
    EntryAtIndex(b, ls, j);
  }

  lemma EntriesAgree(a: Recipe, ks: seq<string>, b: Recipe, ls: seq<string>, i: nat, stop: nat)
    requires |ks| == |ls| && i <= stop <= |ks|
    requires forall j :: i <= j < stop ==> SameEntry(a, ks[j], b, ls[j])
    ensures Entries(a, ks)[i..stop] == Entries(b, ls)[i..stop]
  {
    forall j | i <= j < stop ensures Entries(a, ks)[j] == Entries(b, ls)[j] {
      SameEntryAt(a, ks, b, ls, j);
    }
  }

  /** Bodies whose entries agree up to a point and that agree from there on agree. */
  lemma BodiesAgree(a: Recipe, ks: seq<string>, b: Recipe, ls: seq<string>, i: nat, stop: nat)
    requires |ks| == |ls| && i <= stop <= |ks|
    requires forall j :: i <= j < stop ==> SameEntry(a, ks[j], b, ls[j])
    requires SameBodyFrom(a, ks, b, ls, stop)
    ensures SameBodyFrom(a, ks, b, ls, i)
  {
    EntriesAgree(a, ks, b, ls, i, stop);
    BodyIsFlat(a, ks, i);
    BodyIsFlat(b, ls, i);
    BodyIsFlat(a, ks, stop);
    BodyIsFlat(b, ls, stop);
    FlatAgrees(Entries(a, ks), Entries(b, ls), i, stop);
  }

  /** The recipe in which what follows an equals sign in an argument's name belongs to its value. */
  function ArgumentSplit(r: Recipe, x: string, y: string): Recipe
    requires x + "=" + y in r.buildArgs
  {
    r.(buildArgs := (r.buildArgs - {x + "=" + y})[x := y + "=" + r.buildArgs[x + "=" + y]])
  }

  /** A listing with one key replaced lists the tags with that key replaced. */
  lemma ReplacedListing(a: Recipe, b: Recipe, ks: seq<string>, i: nat, key: string)
    requires Lists(ks, a) && i < |ks| && Ascending(ks[i := key])
    requires forall other :: IsTagged(b, other) <==> other == key || (IsTagged(a, other) && other != ks[i])
    ensures Lists(ks[i := key], b) && AllTagged(b, ks[i := key])
    ensures forall j :: 0 <= j < |ks| && j != i ==> ks[j] != ks[i] && ks[j] != key && IsTagged(a, ks[j])
  {
    var ls := ks[i := key];
    forall j | 0 <= j < |ks| && j != i ensures ks[j] != ks[i] && ks[j] != key && IsTagged(a, ks[j]) {
      LessIsIrreflexive(ks[j]);
      assert ks[j] in ks;
      assert ls[j] == ks[j] && ls[i] == key;
    }
    forall other ensures other in ls <==> IsTagged(b, other) {
      assert other in ls ==> other == key || (other in ks && other != ks[i]);
      if other in ks && other != ks[i] {
        var j :| 0 <= j < |ks| && ks[j] == other;
        assert ls[j] == other;
      }
      assert ls[i] == key;
    }
    assert forall j :: 0 <= j < |ls| ==> ls[j] in ls;
  }

  lemma SplitTags(r: Recipe, x: string, y: string, other: string)
    requires x + "=" + y in r.buildArgs
    ensures var b := ArgumentSplit(r, x, y);
            && (IsTagged(b, other) <==>
                other == "arg:" + x || (IsTagged(r, other) && other != "arg:" + (x + "=" + y)))
            && (IsTagged(r, other) && other != "arg:" + x && other != "arg:" + (x + "=" + y) ==>
                Value(b, other) == Value(r, other))
  {
    TagIsInjective("arg:", x);
    TagIsInjective("arg:", x + "=" + y);
  }

  lemma SplitEntry(r: Recipe, x: string, y: string)
    requires x + "=" + y in r.buildArgs
    ensures IsTagged(r, "arg:" + (x + "=" + y)) && IsTagged(ArgumentSplit(r, x, y), "arg:" + x)
    ensures Entry(r, "arg:" + (x + "=" + y)) == Entry(ArgumentSplit(r, x, y), "arg:" + x)
  {
    TagIsInjective("arg:", x);
    TagIsInjective("arg:", x + "=" + y);
    EqualsSignMoves(x, y, r.buildArgs[x + "=" + y]);
  }

  lemma SplitDiffers(r: Recipe, x: string, y: string)
    requires x + "=" + y in r.buildArgs
    ensures ArgumentSplit(r, x, y) != r
  {
    assert |x + "=" + y| > |x|;
    assert x + "=" + y !in ArgumentSplit(r, x, y).buildArgs;
  }

  lemma ArgumentSplitListing(r: Recipe, ks: seq<string>, i: nat, x: string, y: string, b: Recipe, ls: seq<string>)
    requires Lists(ks, r) && i < |ks| && x + "=" + y in r.buildArgs && b == ArgumentSplit(r, x, y)
    requires ks[i] == "arg:" + (x + "=" + y) && ls == ks[i := "arg:" + x] && Ascending(ls)
    ensures Lists(ls, b) && AllTagged(r, ks) && AllTagged(b, ls)
    ensures forall j :: 0 <= j < |ks| ==> SameEntry(r, ks[j], b, ls[j])
  {
    forall other
      ensures IsTagged(b, other) <==> other == "arg:" + x || (IsTagged(r, other) && other != ks[i])
    {
      SplitTags(r, x, y, other);
    }
    ReplacedListing(r, b, ks, i, "arg:" + x);
    assert AllTagged(r, ks);
    forall j | 0 <= j < |ks| ensures SameEntry(r, ks[j], b, ls[j]) {
      if j == i {
        SplitEntry(r, x, y);
      } else {
        SplitTags(r, x, y, ks[j]);
      }
    }
  }

  lemma SameEntriesSameStream(a: Recipe, ks: seq<string>, b: Recipe, ls: seq<string>) returns (stream: string)
    requires Lists(ks, a) && Lists(ls, b) && |ks| == |ls| && AllTagged(a, ks) && AllTagged(b, ls)
    requires forall j :: 0 <= j < |ks| ==> SameEntry(a, ks[j], b, ls[j])
    requires Header(a) == Header(b)
    ensures IsStream(a, stream) && IsStream(b, stream)
  {
    BodiesAgree(a, ks, b, ls, 0, |ks|);
    stream := Header(a) + BodyFrom(a, ks, 0);
  }

  /** In any recipe, an argument whose name contains '=' makes it collide, if the shortened name
      keeps its place among the keys: the rest of the name moves to the value. */
  lemma ArgumentNamesCollide(r: Recipe, ks: seq<string>, i: nat, x: string, y: string) returns (stream: string)
    requires Lists(ks, r) && i < |ks| && x + "=" + y in r.buildArgs
    requires ks[i] == "arg:" + (x + "=" + y) && Ascending(ks[i := "arg:" + x])
    ensures ArgumentSplit(r, x, y) != r
    ensures IsStream(r, stream) && IsStream(ArgumentSplit(r, x, y), stream)
  {
    var b, ls := ArgumentSplit(r, x, y), ks[i := "arg:" + x];
    ArgumentSplitListing(r, ks, i, x, y, b, ls);
    stream := SameEntriesSameStream(r, ks, b, ls);
    SplitDiffers(r, x, y);
  }

  // ----- Files whose contents contain the tag

  /** The recipe in which what follows the tag in a file's contents belongs to the next file's name. */
  function FileSplit(r: Recipe, k: string, p: string, q: string, l: string): Recipe
    requires k in r.contextFiles && l in r.contextFiles
  {
    r.(contextFiles := (r.contextFiles - {l})[k := p][q + "file:" + l := r.contextFiles[l]])
  }

  lemma FileSplitTags(r: Recipe, k: string, p: string, q: string, l: string, other: string)
    requires k in r.contextFiles && l in r.contextFiles && k != l && k != q + "file:" + l
    ensures var b, name := FileSplit(r, k, p, q, l), q + "file:" + l;
            && (IsTagged(b, other) <==> other == "file:" + name || (IsTagged(r, other) && other != "file:" + l))
            && (IsTagged(r, other) && other != "file:" + k && other != "file:" + l && other != "file:" + name ==>
                IsTagged(b, other) && Value(b, other) == Value(r, other))
  {
    TagIsInjective("file:", k);
    TagIsInjective("file:", l);
    TagIsInjective("file:", q + "file:" + l);
    TagsDiffer("file:" + l);
    TagsDiffer("file:" + (q + "file:" + l));
  }

  lemma TwoEntries(r: Recipe, ks: seq<string>, i: nat, k: string, l: string)
    requires i + 1 < |ks| && AllTagged(r, ks) && ks[i] == "file:" + k && ks[i + 1] == "file:" + l
    ensures k in r.contextFiles && l in r.contextFiles
    ensures BodyFrom(r, ks, i) == "file:" + k + [NUL] + r.contextFiles[k] +
                                  ("file:" + l + [NUL] + r.contextFiles[l]) + BodyFrom(r, ks, i + 2)
  {
    TagIsInjective("file:", k);
    TagIsInjective("file:", l);
    TagsDiffer(ks[i]);
    TagsDiffer(ks[i + 1]);
    ConcatIsAssociative(Entry(r, ks[i]), Entry(r, ks[i + 1]), BodyFrom(r, ks, i + 2));
  }

  lemma NamesDiffer(ks: seq<string>, i: nat, k: string, l: string, name: string)
    requires i + 1 < |ks| && Ascending(ks) && Ascending(ks[i + 1 := "file:" + name])
    requires ks[i] == "file:" + k && ks[i + 1] == "file:" + l
    ensures k != l && k != name
  {
    var ls := ks[i + 1 := "file:" + name];
    assert Less(ks[i], ks[i + 1]) && Less(ls[i], ls[i + 1]);
    LessIsIrreflexive(ks[i]);
  }

  lemma FileSplitListing(r: Recipe, ks: seq<string>, i: nat, k: string, p: string, q: string, l: string,
                         name: string, b: Recipe, ls: seq<string>)
    requires Lists(ks, r) && i + 1 < |ks| && k in r.contextFiles && l in r.contextFiles
    requires k != l && k != name && ks[i] == "file:" + k && ks[i + 1] == "file:" + l
    requires name == q + "file:" + l && b == FileSplit(r, k, p, q, l)
    requires ls == ks[i + 1 := "file:" + name] && Ascending(ls)
    ensures Lists(ls, b) && AllTagged(r, ks) && AllTagged(b, ls)
    ensures forall j :: 0 <= j < |ks| && j != i && j != i + 1 ==> SameEntry(r, ks[j], b, ls[j])
  {
    forall other
      ensures IsTagged(b, other) <==> other == "file:" + name || (IsTagged(r, other) && other != ks[i + 1])
    {
      FileSplitTags(r, k, p, q, l, other);
    }
    ReplacedListing(r, b, ks, i + 1, "file:" + name);
    assert AllTagged(r, ks);
    forall j | 0 <= j < |ks| && j != i && j != i + 1 ensures SameEntry(r, ks[j], b, ls[j]) {
      LessIsIrreflexive(ks[j]);
      FileSplitTags(r, k, p, q, l, ks[j]);
    }
  }

  lemma FileSplitBody(r: Recipe, ks: seq<string>, i: nat, k: string, p: string, q: string, l: string,
                      name: string, b: Recipe, ls: seq<string>)
    requires i + 1 < |ks| == |ls| && AllTagged(r, ks) && AllTagged(b, ls) && SameBodyFrom(r, ks, b, ls, i + 2)
    requires ks[i] == ls[i] == "file:" + k && ks[i + 1] == "file:" + l && ls[i + 1] == "file:" + name
    requires k in r.contextFiles && l in r.contextFiles && k != name && name == q + "file:" + l
    requires r.contextFiles[k] == p + "file:" + q && b == FileSplit(r, k, p, q, l)
    ensures SameBodyFrom(r, ks, b, ls, i)
  {
    TwoEntries(r, ks, i, k, l);
    TwoEntries(b, ls, i, k, name);
    TagMoves("file:" + k + [NUL], p, q, l, [NUL], r.contextFiles[l]);
  }

  lemma FileSplitDiffers(r: Recipe, k: string, p: string, q: string, l: string)
    requires k in r.contextFiles && l in r.contextFiles && k != q + "file:" + l && r.contextFiles[k] == p + "file:" + q
    ensures FileSplit(r, k, p, q, l) != r
  {
    assert FileSplit(r, k, p, q, l).contextFiles[k] == p && |p| < |r.contextFiles[k]|;
  }

  /** Listings whose entries agree but for two in a row, which agree together, give one stream. */
  lemma ShareStream(a: Recipe, ks: seq<string>, b: Recipe, ls: seq<string>, i: nat) returns (stream: string)
    requires Lists(ks, a) && Lists(ls, b) && |ks| == |ls| && i + 2 <= |ks| && AllTagged(a, ks) && AllTagged(b, ls)
    requires forall j :: 0 <= j < |ks| && j != i && j != i + 1 ==> SameEntry(a, ks[j], b, ls[j])
    requires SameBodyFrom(a, ks, b, ls, i + 2) ==> SameBodyFrom(a, ks, b, ls, i)
    requires Header(a) == Header(b)
    ensures IsStream(a, stream) && IsStream(b, stream)
  {
    BodiesAgree(a, ks, b, ls, i + 2, |ks|);
    BodiesAgree(a, ks, b, ls, 0, i);
    stream := Header(a) + BodyFrom(a, ks, 0);
  }

  /** In any recipe, a file whose contents have the tag in them and that another file follows makes
      it collide, if the name that grows keeps its place among the keys: what stands after the tag
      moves to that name. */
  lemma FileNamesCollide(r: Recipe, ks: seq<string>, i: nat, k: string, p: string, q: string, l: string)
    returns (stream: string)
    requires Lists(ks, r) && i + 1 < |ks| && k in r.contextFiles && l in r.contextFiles
    requires ks[i] == "file:" + k && ks[i + 1] == "file:" + l && r.contextFiles[k] == p + "file:" + q
    requires Ascending(ks[i + 1 := "file:" + (q + "file:" + l)])
    ensures FileSplit(r, k, p, q, l) != r
    ensures IsStream(r, stream) && IsStream(FileSplit(r, k, p, q, l), stream)
  {
    var name := q + "file:" + l;
    var b, ls := FileSplit(r, k, p, q, l), ks[i + 1 := "file:" + name];
    NamesDiffer(ks, i, k, l, name);
    FileSplitListing(r, ks, i, k, p, q, l, name, b, ls);
    if SameBodyFrom(r, ks, b, ls, i + 2) {
      FileSplitBody(r, ks, i, k, p, q, l, name, b, ls);
    }
    stream := ShareStream(r, ks, b, ls, i);
    FileSplitDiffers(r, k, p, q, l);
  }

  // ----- Texts with a NUL in the header

  /** A NUL in the build file's text can imitate the end of that text. */
  lemma HeadersWithNulCollide(r: Recipe, x: string, y: string, z: string, stream: string)
    ensures var a := r.(dockerfile := x + [NUL] + y, fingerprint := z);
            var b := r.(dockerfile := x, fingerprint := y + [NUL] + z);
            a != b && (IsStream(a, stream) <==> IsStream(b, stream))
  {
    var a := r.(dockerfile := x + [NUL] + y, fingerprint := z);
    var b := r.(dockerfile := x, fingerprint := y + [NUL] + z);
    assert |a.dockerfile| > |b.dockerfile|;
    SameHeader(r.image + [NUL] + r.user + [NUL], x, y, z);
    if IsStream(a, stream) {
      SameMaps(a, b, stream);
    }
    if IsStream(b, stream) {
      SameMaps(b, a, stream);
    }
  }

  lemma SameHeader(front: string, x: string, y: string, z: string)
    ensures front + (x + [NUL] + y) + [NUL] + z + [NUL] == front + x + [NUL] + (y + [NUL] + z) + [NUL]
  {
  }

  lemma SameMaps(a: Recipe, b: Recipe, stream: string)
    requires a.buildArgs == b.buildArgs && a.contextFiles == b.contextFiles && Header(a) == Header(b)
    requires IsStream(a, stream)
    ensures IsStream(b, stream)
  {
    var ks :| Lists(ks, a) && AllTagged(a, ks) && stream == Header(a) + BodyFrom(a, ks, 0);
    assert forall key :: IsTagged(a, key) <==> IsTagged(b, key);
    assert AllTagged(b, ks);
    forall j | 0 <= j < |ks| ensures SameEntry(a, ks[j], b, ks[j]) {
    }
    BodiesAgree(a, ks, b, ks, 0, |ks|);
  }

  /** The only argument of a recipe always keeps its place. */
  lemma SoleArgumentCollides(r: Recipe, x: string, y: string, v: string) returns (stream: string)
    ensures var a, b := WithArg(r, x, y + "=" + v), WithArg(r, x + "=" + y, v);
            a != b && IsStream(a, stream) && IsStream(b, stream)
  {
    var a, b := WithArg(r, x, y + "=" + v), WithArg(r, x + "=" + y, v);
    OneArgStream(a, x);
    OneArgStream(b, x + "=" + y);
    stream := Header(r) + ("arg:" + x + "=" + (y + "=" + v) + [NUL]);
    assert x in a.buildArgs && |x + "=" + y| > |x|;
    EqualsSignMoves(x, y, v);
  }

  lemma EqualsSignMoves(x: string, y: string, v: string)
    ensures "arg:" + x + "=" + (y + "=" + v) == "arg:" + (x + "=" + y) + "=" + v
  {
  }

  lemma TagMoves(front: string, p: string, q: string, l: string, nul: string, d: string)
    ensures front + (p + "file:" + q) + ("file:" + l + nul + d)
            == front + p + ("file:" + (q + "file:" + l) + nul + d)
  {
    var end := nul + d;
    ConcatIsAssociative("file:" + l, nul, d);
    ConcatIsAssociative("file:" + (q + "file:" + l), nul, d);
    TagRegroups(p, q, l, end);
    ConcatIsAssociative(front, p + "file:" + q, "file:" + l + end);
    ConcatIsAssociative(front, p, "file:" + (q + "file:" + l) + end);
  }

  lemma TagRegroups(p: string, q: string, l: string, end: string)
    ensures p + "file:" + q + ("file:" + l + end) == p + ("file:" + (q + "file:" + l) + end)
  {
  }

  /** A second recipe for the text of one argument with more than one '='. */
  lemma AnotherArgument(r: Recipe, k: string, v: string) returns (b: Recipe, stream: string)
    requires RecipeNulFree(WithArg(r, k, v)) && NulFree(k) && NulFree(v) && ('=' in k || '=' in v)
    ensures b != WithArg(r, k, v) && RecipeNulFree(b)
    ensures IsStream(WithArg(r, k, v), stream) && IsStream(b, stream)
  {
    if '=' in k {
      var i :| 0 <= i < |k| && k[i] == '=';
      assert k == k[..i] + "=" + k[i + 1..];
      stream := SoleArgumentCollides(r, k[..i], k[i + 1..], v);
      PartsAreNulFree(k, i);
      b := WithArg(r, k[..i], k[i + 1..] + "=" + v);
      ArgIsNulFree(WithArg(r, k, v), b, k[..i], k[i + 1..] + "=" + v);
    } else {
      var i :| 0 <= i < |v| && v[i] == '=';
      assert v == v[..i] + "=" + v[i + 1..];
      stream := SoleArgumentCollides(r, k, v[..i], v[i + 1..]);
      PartsAreNulFree(v, i);
      b := WithArg(r, k + "=" + v[..i], v[i + 1..]);
      ArgIsNulFree(WithArg(r, k, v), b, k + "=" + v[..i], v[i + 1..]);
    }
  }

  /** For a recipe with one argument the guards are exact: no other recipe without NULs has its
      stream if and only if '=' stands neither in the name nor in the value. */
  lemma OneArgumentIsDeterminedIff(r: Recipe, k: string, v: string, stream: string)
    requires RecipeNulFree(WithArg(r, k, v)) && IsStream(WithArg(r, k, v), stream)
    ensures (forall b :: RecipeNulFree(b) && IsStream(b, stream) ==> b == WithArg(r, k, v))
            <==> '=' !in k && '=' !in v
  {
    var a := WithArg(r, k, v);
    assert k in a.buildArgs && a.buildArgs[k] == v;
    if '=' in k || '=' in v {
      var b, t := AnotherArgument(r, k, v);
      StreamIsUnique(a, stream, t);
    } else {
      forall b | RecipeNulFree(b) && IsStream(b, stream) ensures b == a {
        OnlyRecipe(r, k, v, b, stream);
      }
    }
  }

  lemma PartsAreNulFree(s: string, i: nat)
    requires NulFree(s) && i < |s|
    ensures NulFree(s[..i]) && NulFree(s[i + 1..])
  {
  }

  lemma ArgIsNulFree(a: Recipe, b: Recipe, x: string, v: string)
    requires RecipeNulFree(a) && b == WithArg(a, x, v) && NulFree(x) && NulFree(v)
    ensures RecipeNulFree(b)
  {
  }

  lemma BodyBehindHeader(a: Recipe, x: string, b: Recipe) returns (ls: seq<string>)
    requires RecipeNulFree(a) && RecipeNulFree(b) && IsStream(b, Header(a) + x)
    ensures a.image == b.image && a.user == b.user && a.dockerfile == b.dockerfile && a.fingerprint == b.fingerprint
    ensures Lists(ls, b) && AllTagged(b, ls) && BodyFrom(b, ls, 0) == x
  {
    ls :| Lists(ls, b) && AllTagged(b, ls) && Header(a) + x == Header(b) + BodyFrom(b, ls, 0);
    HeaderDetermines(a, x, b, BodyFrom(b, ls, 0));
  }

  lemma OnlyRecipe(r: Recipe, k: string, v: string, b: Recipe, stream: string)
    requires '=' !in k && '=' !in v && NulFree(k) && NulFree(v)
    requires RecipeNulFree(WithArg(r, k, v)) && RecipeNulFree(b)
    requires IsStream(WithArg(r, k, v), stream) && IsStream(b, stream)
    ensures b == WithArg(r, k, v)
  {
    var a, text := WithArg(r, k, v), "arg:" + k + "=" + v + [NUL];
    OneArgStream(a, k);
    StreamIsUnique(a, stream, Header(a) + text);
    var ls := BodyBehindHeader(a, text, b);
    SameArgument(k, v, b, ls);
  }

  lemma SameArgument(k: string, v: string, b: Recipe, ls: seq<string>)
    requires '=' !in k && '=' !in v && NulFree(k) && NulFree(v)
    requires RecipeNulFree(b) && Lists(ls, b) && AllTagged(b, ls)
    requires BodyFrom(b, ls, 0) == "arg:" + k + "=" + v + [NUL]
    ensures b.contextFiles == map[] && b.buildArgs == map[k := v]
  {
    OnlyArgument(k, v, b, ls);
    SoleArgument(b, ls, k);
  }

  /** The text of one argument, without another '=', is that of no other arguments. */
  lemma OnlyArgument(k: string, v: string, b: Recipe, ls: seq<string>)
    requires '=' !in k && '=' !in v && NulFree(k) && NulFree(v) && RecipeNulFree(b) && AllTagged(b, ls)
    requires BodyFrom(b, ls, 0) == "arg:" + k + "=" + v + [NUL]
    ensures ls == ["arg:" + k] && Value(b, ls[0]) == v
  {
    var text := "arg:" + k + "=" + v;
    assert (text + [NUL])[0] == 'a';
    assert ls != [];
    assert BodyFrom(b, ls, 0)[0] == ls[0][0];
    var key, w := ls[0], Value(b, ls[0]);
    assert "arg:" <= key;
    TaggedKeyIsNulFree(b, key);
    ArgBody(b, ls, 0);
    assert text + [NUL] == text + [NUL] + "";
    Terminated(key + "=" + w, BodyFrom(b, ls, 1), text, "");
    if |ls| > 1 {
      BodyHasNul(b, ls, 1);
    }
    OneEqualsSign("arg:" + k, v, key, w);
  }

  lemma OneEqualsSign(k: string, v: string, l: string, w: string)
    requires '=' !in k && '=' !in v && k + "=" + v == l + "=" + w
    ensures k == l && v == w
  {
    var s := k + "=" + v;
    assert s[|l|] == '=' by {
      assert s == l + "=" + w;
    }
    assert forall i :: 0 <= i < |s| && i != |k| ==> s[i] == if i < |k| then k[i] else v[i - |k| - 1];
    assert k == s[..|k|] && l == (l + "=" + w)[..|l|];
    assert v == s[|k| + 1..] && w == (l + "=" + w)[|l| + 1..];
  }

  lemma SoleArgument(b: Recipe, ls: seq<string>, k: string)
    requires Lists(ls, b) && ls == ["arg:" + k]
    ensures b.buildArgs.Keys == {k} && b.contextFiles == map[]
    ensures Value(b, "arg:" + k) == b.buildArgs[k]
  {
    TagIsInjective("arg:", k);
    forall x ensures x in b.buildArgs <==> x == k {
      TagIsInjective("arg:", x);
      assert IsTagged(b, "arg:" + x) <==> "arg:" + x in ls;
    }
    forall x ensures x !in b.contextFiles {
      TagIsInjective("file:", x);
      TagsDiffer("file:" + x);
      assert "file:" + x !in ls;
    }
  }

  // ----- Recipes with two files

  lemma TagSplits(text: string, i: nat)
    requires TagAt(text, i)
    ensures text == text[..i] + ("file:" + text[i + 5..])
  {
    assert text[i..i + 5] == "file:";
    assert text == text[..i] + (text[i..i + 5] + text[i + 5..]);
  }

  lemma TagStands(v: string, m: string)
    ensures TagAt(v + ("file:" + m), |v|) && (v + ("file:" + m))[|v| + 5..] == m
  {
    var s := v + ("file:" + m);
    assert s[|v|] == 'f' && s[|v| + 1] == 'i' && s[|v| + 2] == 'l' && s[|v| + 3] == 'e' && s[|v| + 4] == ':';
  }

  lemma FilesAreNulFree(r: Recipe, k: string, c: string, l: string, d: string)
    requires k != l
    ensures RecipeNulFree(WithFiles(r, k, c, l, d)) <==>
            && NulFree(r.image) && NulFree(r.user) && NulFree(r.dockerfile) && NulFree(r.fingerprint)
            && NulFree(k) && NulFree(c) && NulFree(l) && NulFree(d)
  {
    var files := WithFiles(r, k, c, l, d).contextFiles;
    assert files[k] == c && files[l] == d;
  }

  lemma StartsWithFile(b: Recipe, ls: seq<string>, text: string)
    requires AllTagged(b, ls) && BodyFrom(b, ls, 0) == text && text != "" && text[0] == 'f'
    ensures ls != [] && !("arg:" <= ls[0])
  {
    assert ls != [];
    assert BodyFrom(b, ls, 0)[0] == ls[0][0];
  }

  lemma FirstFileRead(b: Recipe, ls: seq<string>, key: string, tail: string)
    requires RecipeNulFree(b) && Ascending(ls) && AllTagged(b, ls) && BodyFrom(b, ls, 0) == key + [NUL] + tail
    requires key != "" && key[0] == 'f' && NulFree(key) && NUL in tail
    ensures |ls| > 1 && ls[0] == key && !("arg:" <= ls[1]) && NulFree(Value(b, key))
    ensures Value(b, key) + BodyFrom(b, ls, 1) == tail
  {
    StartsWithFile(b, ls, key + [NUL] + tail);
    TaggedKeyIsNulFree(b, ls[0]);
    FileBody(b, ls, 0);
    var v := Value(b, ls[0]);
    Terminated(ls[0], v + BodyFrom(b, ls, 1), key, tail);
    if |ls| == 1 {
      NothingBehind(v);
    } else {
      FilesComeLast(ls, b, 0, 1);
    }
  }

  /** The text of two files, read as entries: two files, the first of the same name, the second of
      the same contents, with the border between them at some tag. */
  lemma TwoFilesRead(k: string, c: string, l: string, d: string, b: Recipe, ls: seq<string>)
    returns (v: string, m: string)
    requires NulFree(k) && NulFree(c) && NulFree(l) && NulFree(d)
    requires RecipeNulFree(b) && Ascending(ls) && AllTagged(b, ls)
    requires BodyFrom(b, ls, 0) == "file:" + k + [NUL] + (c + ("file:" + l + [NUL] + d))
    ensures ls == ["file:" + k, "file:" + m] && Value(b, ls[0]) == v && Value(b, ls[1]) == d
    ensures v + ("file:" + m) == c + ("file:" + l)
  {
    var tail := c + ("file:" + l + [NUL] + d);
    assert tail[|c| + 5 + |l|] == NUL;
    FirstFileRead(b, ls, "file:" + k, tail);
    v := Value(b, ls[0]);
    m := SecondFileRead(c, l, d, b, ls, v);
  }

  lemma SecondFileRead(c: string, l: string, d: string, b: Recipe, ls: seq<string>, v: string) returns (m: string)
    requires NulFree(c) && NulFree(l) && NulFree(d) && NulFree(v)
    requires RecipeNulFree(b) && AllTagged(b, ls) && |ls| > 1 && !("arg:" <= ls[1])
    requires v + BodyFrom(b, ls, 1) == c + ("file:" + l + [NUL] + d)
    ensures |ls| == 2 && ls[1] == "file:" + m && Value(b, ls[1]) == d
    ensures v + ("file:" + m) == c + ("file:" + l)
  {
    m := ls[1][5..];
    var w := Value(b, ls[1]);
    TaggedKeyIsNulFree(b, ls[1]);
    FileBody(b, ls, 1);
    KeyAndRest(v, ls[1], w + BodyFrom(b, ls, 2));
    KeyAndRest(c, "file:" + l, d);
    Terminated(v + ls[1], w + BodyFrom(b, ls, 2), c + ("file:" + l), d);
    if |ls| > 2 {
      BodyHasNul(b, ls, 2);
    }
    NothingBehind(w);
  }

  lemma KeyAndRest(v: string, key: string, rest: string)
    ensures v + (key + [NUL] + rest) == v + key + [NUL] + rest
  {
  }

  lemma NothingBehind(v: string)
    ensures v + "" == v
  {
  }

  /** The second name fits behind k only where the text is cut at the end of the contents. */
  ghost predicate OnlyCutInOrder(text: string, k: string, cut: nat) {
    forall i: nat :: TagAt(text, i) && Less(k, text[i + 5..]) ==> i == cut
  }

  /** For a recipe with two files the guards are exact: no other recipe without NULs has its stream
      if and only if, of all places where the tag stands in the first file's contents, the tag and
      the second name, put together, only that before the second name leaves the names in order. */
  lemma TwoFilesAreDeterminedIff(r: Recipe, k: string, c: string, l: string, d: string, stream: string)
    requires Less(k, l) && RecipeNulFree(WithFiles(r, k, c, l, d)) && IsStream(WithFiles(r, k, c, l, d), stream)
    ensures (forall b :: RecipeNulFree(b) && IsStream(b, stream) ==> b == WithFiles(r, k, c, l, d)) <==>
            OnlyCutInOrder(c + ("file:" + l), k, |c|)
  {
    var a, text := WithFiles(r, k, c, l, d), c + ("file:" + l);
    LessIsIrreflexive(k);
    FilesAreNulFree(r, k, c, l, d);
    if OnlyCutInOrder(text, k, |c|) {
      forall b | RecipeNulFree(b) && IsStream(b, stream) ensures b == a {
        OnlyTwoFiles(r, k, c, l, d, b, stream);
      }
    } else {
      var i: nat :| TagAt(text, i) && Less(k, text[i + 5..]) && i != |c|;
      AnotherCut(r, k, c, l, d, i, stream);
    }
  }

  lemma TwoFileText(r: Recipe, k: string, c: string, l: string, d: string, stream: string)
    requires Less(k, l) && IsStream(WithFiles(r, k, c, l, d), stream)
    ensures stream == Header(r) + ("file:" + k + [NUL] + (c + ("file:" + l + [NUL] + d)))
  {
    var a := WithFiles(r, k, c, l, d);
    LessIsIrreflexive(k);
    TwoFileStream(a, k, l);
    ConcatIsAssociative("file:" + k + [NUL], c, "file:" + l + [NUL] + d);
    StreamIsUnique(a, stream, Header(a) + ("file:" + k + [NUL] + c + ("file:" + l + [NUL] + d)));
  }

  lemma AnotherCut(r: Recipe, k: string, c: string, l: string, d: string, i: nat, stream: string)
    requires Less(k, l) && RecipeNulFree(WithFiles(r, k, c, l, d)) && IsStream(WithFiles(r, k, c, l, d), stream)
    requires TagAt(c + ("file:" + l), i) && Less(k, (c + ("file:" + l))[i + 5..]) && i != |c|
    ensures exists b :: RecipeNulFree(b) && IsStream(b, stream) && b != WithFiles(r, k, c, l, d)
  {
    var text := c + ("file:" + l);
    var v, m := text[..i], text[i + 5..];
    TagSplits(text, i);
    LessIsIrreflexive(k);
    FilesAreNulFree(r, k, c, l, d);
    assert NulFree(text);
    FilesAreNulFree(r, k, v, m, d);
    SecondReading(r, k, c, l, v, m, d, stream);
    OtherFiles(r, k, c, l, v, m, d);
  }

  lemma SecondReading(r: Recipe, k: string, c: string, l: string, v: string, m: string, d: string, stream: string)
    requires Less(k, l) && Less(k, m) && v + ("file:" + m) == c + ("file:" + l)
    requires IsStream(WithFiles(r, k, c, l, d), stream)
    ensures IsStream(WithFiles(r, k, v, m, d), stream)
  {
    var b := WithFiles(r, k, v, m, d);
    LessIsIrreflexive(k);
    TwoFileText(r, k, c, l, d, stream);
    TwoFileStream(b, k, m);
    ConcatIsAssociative("file:" + k + [NUL], c, "file:" + l + [NUL] + d);
    SameTwoFiles("file:" + k + [NUL], c, l, v, m, d);
  }

  lemma OtherFiles(r: Recipe, k: string, c: string, l: string, v: string, m: string, d: string)
    requires Less(k, m) && |m| != |l|
    ensures WithFiles(r, k, v, m, d) != WithFiles(r, k, c, l, d)
  {
    LessIsIrreflexive(k);
    assert m in WithFiles(r, k, v, m, d).contextFiles && m !in WithFiles(r, k, c, l, d).contextFiles;
  }

  lemma SameTwoFiles(front: string, c: string, l: string, v: string, m: string, d: string)
    requires v + ("file:" + m) == c + ("file:" + l)
    ensures front + v + ("file:" + m + [NUL] + d) == front + c + ("file:" + l + [NUL] + d)
  {
    EndRegroups(front, v, "file:" + m, [NUL], d);
    EndRegroups(front, c, "file:" + l, [NUL], d);
  }

  lemma EndRegroups(front: string, v: string, key: string, nul: string, d: string)
    ensures front + v + (key + nul + d) == front + (v + key) + nul + d
  {
  }

  lemma OnlyTwoFiles(r: Recipe, k: string, c: string, l: string, d: string, b: Recipe, stream: string)
    requires Less(k, l) && RecipeNulFree(WithFiles(r, k, c, l, d)) && RecipeNulFree(b)
    requires IsStream(WithFiles(r, k, c, l, d), stream) && IsStream(b, stream)
    requires OnlyCutInOrder(c + ("file:" + l), k, |c|)
    ensures b == WithFiles(r, k, c, l, d)
  {
    var a := WithFiles(r, k, c, l, d);
    LessIsIrreflexive(k);
    FilesAreNulFree(r, k, c, l, d);
    TwoFileText(r, k, c, l, d, stream);
    var ls := BodyBehindHeader(a, "file:" + k + [NUL] + (c + ("file:" + l + [NUL] + d)), b);
    var v, m := TwoFilesRead(k, c, l, d, b, ls);
    assert Less(ls[0], ls[1]);
    OnlyCut(v, m, c, l, k);
    SoleFiles(b, ls, k, l);
    FilesAre(b.contextFiles, k, c, l, d);
  }

  lemma FilesAre(files: map<string, string>, k: string, c: string, l: string, d: string)
    requires files.Keys == {k, l} && files[k] == c && files[l] == d
    ensures files == map[k := c, l := d]
  {
  }

  lemma OnlyCut(v: string, m: string, c: string, l: string, k: string)
    requires v + ("file:" + m) == c + ("file:" + l) && Less("file:" + k, "file:" + m)
    requires OnlyCutInOrder(c + ("file:" + l), k, |c|)
    ensures v == c && m == l
  {
    LessBehind("file:", k, m);
    TagStands(v, m);
    SameCut(v, m, c, l);
  }

  lemma SameCut(v: string, m: string, c: string, l: string)
    requires v + ("file:" + m) == c + ("file:" + l) && |v| == |c|
    ensures v == c && m == l
  {
    assert v == (v + ("file:" + m))[..|v|] && c == (c + ("file:" + l))[..|c|];
    TagStands(v, m);
    TagStands(c, l);
  }

  lemma SoleFiles(b: Recipe, ls: seq<string>, k: string, l: string)
    requires Lists(ls, b) && ls == ["file:" + k, "file:" + l] && AllTagged(b, ls)
    ensures b.buildArgs == map[] && b.contextFiles.Keys == {k, l}
    ensures Value(b, ls[0]) == b.contextFiles[k] && Value(b, ls[1]) == b.contextFiles[l]
  {
    TagsDiffer(ls[0]);
    TagsDiffer(ls[1]);
    TagIsInjective("file:", k);
    TagIsInjective("file:", l);
    forall x ensures x in b.contextFiles <==> x == k || x == l {
      TagIsInjective("file:", x);
      TagsDiffer("file:" + x);
      assert IsTagged(b, "file:" + x) <==> "file:" + x in ls;
    }
    forall x ensures x !in b.buildArgs {
      TagIsInjective("arg:", x);
      assert "arg:" + x !in ls;
    }
  }
}
