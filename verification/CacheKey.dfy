/**
 * The byte stream that keys a cached WSL rootfs. A string stands for its bytes, one char a
 * byte; hashing and the file name built from the digest are not part of this model.
 */
module CacheKey {
  import opened Splitting

  datatype Recipe = Recipe(
    image: string,
    user: string,
    dockerfile: string,
    fingerprint: string,
    buildArgs: map<string, string>,
    contextFiles: map<string, string>)

  const NUL := '\0'

  // ----- Ordering strings bytewise

  predicate Less(a: string, b: string) {
    if b == "" then false
    else if a == "" then true
    else if a[0] != b[0] then a[0] < b[0]
    else Less(a[1..], b[1..])
  }

  lemma {:induction false} LessIsIrreflexive(a: string)
    ensures !Less(a, a)
  {
    if a != "" {
      LessIsIrreflexive(a[1..]);
    }
  }

  lemma {:induction false} LessIsTransitive(a: string, b: string, c: string)
    requires Less(a, b) && Less(b, c)
    ensures Less(a, c)
  {
    if a != "" && a[0] == b[0] == c[0] {
      LessIsTransitive(a[1..], b[1..], c[1..]);
    }
  }

  lemma {:induction false} LessIsTotal(a: string, b: string)
    ensures Less(a, b) || a == b || Less(b, a)
  {
    if a != "" && b != "" && a[0] == b[0] {
      LessIsTotal(a[1..], b[1..]);
      assert a == [a[0]] + a[1..] && b == [b[0]] + b[1..];
    }
  }

  ghost predicate Ascending(ks: seq<string>) {
    forall i, j :: 0 <= i < j < |ks| ==> Less(ks[i], ks[j])
  }

  function Inserted(ks: seq<string>, key: string): seq<string> {
    if ks == [] then [key]
    else if Less(key, ks[0]) then [key] + ks
    else [ks[0]] + Inserted(ks[1..], key)
  }

  lemma {:induction false} InsertedMembers(ks: seq<string>, key: string)
    ensures forall x :: x in Inserted(ks, key) <==> x in ks || x == key
  {
    if ks != [] && !Less(key, ks[0]) {
      InsertedMembers(ks[1..], key);
      assert ks == [ks[0]] + ks[1..];
    }
  }

  lemma {:induction false} InsertedIsAscending(ks: seq<string>, key: string)
    requires Ascending(ks) && key !in ks
    ensures Ascending(Inserted(ks, key))
  {
    if ks != [] {
      if Less(key, ks[0]) {
        PrependedIsAscending(key, ks);
      } else {
        var rest := ks[1..];
        LessIsTotal(key, ks[0]);
        InsertedIsAscending(rest, key);
        InsertedMembers(rest, key);
        var more := Inserted(rest, key);
        forall j | 0 <= j < |more| ensures Less(ks[0], more[j]) {
          assert more[j] in more;
        }
        SmallestFirstIsAscending(ks[0], more);
      }
    }
  }

  lemma PrependedIsAscending(key: string, ks: seq<string>)
    requires Ascending(ks) && ks != [] && Less(key, ks[0])
    ensures Ascending([key] + ks)
  {
    forall j | 0 <= j < |ks| ensures Less(key, ks[j]) {
      if j > 0 {
        LessIsTransitive(key, ks[0], ks[j]);
      }
    }
    SmallestFirstIsAscending(key, ks);
  }

  lemma SmallestFirstIsAscending(key: string, ks: seq<string>)
    requires Ascending(ks) && forall j :: 0 <= j < |ks| ==> Less(key, ks[j])
    ensures Ascending([key] + ks)
  {
  }

  lemma FirstIsMember(ls: seq<string>)
    requires ls != []
    ensures ls[0] in ls
  {
  }

  /** A set of strings has one ascending listing. */
  lemma {:induction false} ListingIsUnique(ks: seq<string>, ls: seq<string>)
    requires Ascending(ks) && Ascending(ls)
    requires forall x :: x in ks <==> x in ls
    ensures ks == ls
  {
    if ks == [] {
      if ls != [] {
        FirstIsMember(ls);
      }
    } else {
      assert ks[0] in ls;
      SmallestIsFirst(ks, ls);
      forall x ensures x in ks[1..] <==> x in ls[1..] {
        InTail(ks, x);
        InTail(ls, x);
      }
      ListingIsUnique(ks[1..], ls[1..]);
    }
  }

  lemma SmallestIsFirst(ks: seq<string>, ls: seq<string>)
    requires Ascending(ks) && Ascending(ls) && ks != [] && ls != []
    requires ks[0] in ls && ls[0] in ks
    ensures ks[0] == ls[0]
  {
    if ks[0] != ls[0] {
      var i :| 0 <= i < |ls| && ls[i] == ks[0];
      var j :| 0 <= j < |ks| && ks[j] == ls[0];
      LessIsTransitive(ks[0], ls[0], ks[0]);
      LessIsIrreflexive(ks[0]);
    }
  }

  lemma InTail(ks: seq<string>, x: string)
    requires Ascending(ks) && ks != []
    ensures x in ks[1..] <==> x in ks && x != ks[0]
  {
    LessIsIrreflexive(ks[0]);
    assert ks == [ks[0]] + ks[1..];
  }

  // ----- The stream

  /** The keys written: build arguments and context files under distinct tags. */
  predicate IsTagged(r: Recipe, key: string) {
    if "arg:" <= key then key[4..] in r.buildArgs
    else "file:" <= key && key[5..] in r.contextFiles
  }

  /** What the map named by the tag holds; a key it does not have reads as empty. */
  function Value(r: Recipe, key: string): string {
    if !IsTagged(r, key) then "" else if "arg:" <= key then r.buildArgs[key[4..]] else r.contextFiles[key[5..]]
  }

  function Entry(r: Recipe, key: string): string {
    if "arg:" <= key then key + "=" + Value(r, key) + [NUL] else key + [NUL] + Value(r, key)
  }

  function Header(r: Recipe): string {
    r.image + [NUL] + r.user + [NUL] + r.dockerfile + [NUL] + r.fingerprint + [NUL]
  }

  ghost predicate AllTagged(r: Recipe, ks: seq<string>) {
    forall i :: 0 <= i < |ks| ==> IsTagged(r, ks[i])
  }

  ghost function BodyFrom(r: Recipe, ks: seq<string>, i: nat): string
    requires i <= |ks|
    decreases |ks| - i
  {
    if i == |ks| then "" else Entry(r, ks[i]) + BodyFrom(r, ks, i + 1)
  }

  /** The recipe's tagged keys in ascending order. */
  ghost predicate Lists(ks: seq<string>, r: Recipe) {
    Ascending(ks) && forall key :: key in ks <==> IsTagged(r, key)
  }

  ghost predicate IsStream(r: Recipe, stream: string) {
    exists ks :: Lists(ks, r) && AllTagged(r, ks) && stream == Header(r) + BodyFrom(r, ks, 0)
  }

  /** Feeds the hash, taking the maps' keys in any order. */
  method WriteStream(r: Recipe) returns (stream: string)
    ensures IsStream(r, stream)
  {
    var keys := CollectKeys(r);
    keys := SortStrings(keys);
    assert Lists(keys, r);
    stream := WriteEntries(r, keys);
    stream := Header(r) + stream;
  }

  method WriteEntries(r: Recipe, keys: seq<string>) returns (body: string)
    requires AllTagged(r, keys)
    ensures body == BodyFrom(r, keys, 0)
  {
    body := "";
    var i := 0;
    while i < |keys|
      invariant 0 <= i <= |keys|
      invariant body + BodyFrom(r, keys, i) == BodyFrom(r, keys, 0)
    {
      var entry := WriteEntry(r, keys[i]);
      ConcatIsAssociative(body, entry, BodyFrom(r, keys, i + 1));
      body := body + entry;
      i := i + 1;
    }
    assert body == body + BodyFrom(r, keys, i);
  }

  method WriteEntry(r: Recipe, key: string) returns (entry: string)
    requires IsTagged(r, key)
    ensures entry == Entry(r, key)
  {
    if "arg:" <= key {
      entry := key + "=" + r.buildArgs[key[4..]] + [NUL];
    } else {
      entry := key + [NUL] + r.contextFiles[key[5..]];
    }
  }

  ghost predicate Distinct(ks: seq<string>) {
    forall i, j :: 0 <= i < j < |ks| ==> ks[i] != ks[j]
  }

  method CollectKeys(r: Recipe) returns (keys: seq<string>)
    ensures Distinct(keys) && forall key :: key in keys <==> IsTagged(r, key)
  {
    var args := TagAll("arg:", r.buildArgs.Keys);
    var files := TagAll("file:", r.contextFiles.Keys);
    keys := args + files;
    forall key ensures key in keys <==> IsTagged(r, key) {
      if "file:" <= key {
        TagsDiffer(key);
      }
    }
    forall i, j | 0 <= i < |args| && 0 <= j < |files| ensures args[i] != files[j] {
      assert args[i] in args && files[j] in files;
      TagsDiffer(files[j]);
    }
  }

  method TagAll(tag: string, names: set<string>) returns (keys: seq<string>)
    ensures Distinct(keys) && forall key :: key in keys <==> tag <= key && key[|tag|..] in names
  {
    keys := [];
    var left := names;
    while left != {}
      invariant left <= names && Distinct(keys)
      invariant forall key :: key in keys <==> tag <= key && key[|tag|..] in names - left
      decreases |left|
    {
      var k :| k in left;
      TagIsInjective(tag, k);
      keys := keys + [tag + k];
      left := left - {k};
    }
  }

  lemma TagIsInjective(tag: string, k: string)
    ensures tag <= tag + k && (tag + k)[|tag|..] == k
    ensures forall key :: tag <= key && key[|tag|..] == k <==> key == tag + k
  {
    forall key | tag <= key && key[|tag|..] == k ensures key == tag + k {
      assert key == key[..|tag|] + key[|tag|..];
    }
  }

  lemma TagsDiffer(key: string)
    requires "file:" <= key
    ensures !("arg:" <= key)
  {
    assert key[0] == 'f';
  }

  method SortStrings(keys: seq<string>) returns (sorted: seq<string>)
    requires Distinct(keys)
    ensures Ascending(sorted) && forall key :: key in sorted <==> key in keys
  {
    sorted := [];
    for i := 0 to |keys|
      invariant Ascending(sorted) && forall key :: key in sorted <==> key in keys[..i]
    {
      assert keys[..i + 1] == keys[..i] + [keys[i]];
      InsertedIsAscending(sorted, keys[i]);
      InsertedMembers(sorted, keys[i]);
      sorted := Inserted(sorted, keys[i]);
    }
    assert keys[..|keys|] == keys;
  }

  /** The stream depends on the recipe alone, not on the order in which its maps were read. */
  lemma StreamIsUnique(r: Recipe, s: string, t: string)
    requires IsStream(r, s) && IsStream(r, t)
    ensures s == t
  {
    var ks :| Lists(ks, r) && AllTagged(r, ks) && s == Header(r) + BodyFrom(r, ks, 0);
    var ls :| Lists(ls, r) && AllTagged(r, ls) && t == Header(r) + BodyFrom(r, ls, 0);
    ListingIsUnique(ks, ls);
  }
}
