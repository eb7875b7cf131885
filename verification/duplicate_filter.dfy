/**
 The text duplicate filter, `TxtDuplicateFilter` in
 zijiyou/zijiyou/common/utilities.py: a set of fingerprints seeded once at
 construction and grown by every check. The database cursor is a function
 from collection name to its records; MD5 is a parameter as in the
 fingerprint generator.
 */
module DuplicateFilter {
  import opened Strings
  import opened Fingerprints
  import opened Segmentation

  /** `checkDuplicate` fingerprints this many top segments. */
  const TopNum := 50

  /** A stored document: field name to value. */
  type Record = map<string, string>

  /** The filter's state, `self.md5s`. */
  datatype Filter = Filter(md5s: set<Fingerprint>)

  /** The outcome of one check: the duplicate flag and fingerprint the source
      returns, and the filter afterwards. */
  datatype Checked = Checked(isDuplicate: bool, fp: Fingerprint, after: Filter)

  /** Some record of some listed collection carries `v` in its `md5` field. */
  ghost predicate Stored(cols: seq<string>, store: string -> seq<Record>, v: string)
  {
    exists c, k :: c in cols && 0 <= k < |store(c)| && "md5" in store(c)[k] && store(c)[k]["md5"] == v
  }

  /** The loop over one cursor: the `md5` of every record that has one. */
  function LoadRecords(records: seq<Record>): (r: set<Fingerprint>)
    ensures forall fp :: fp in r <==> fp.Hex? && exists k :: 0 <= k < |records| && "md5" in records[k] && records[k]["md5"] == fp.digest
  {
    if |records| == 0 then {}
    else
      var last := records[|records| - 1];
      var rest := LoadRecords(records[..|records| - 1]);
      assert forall k :: 0 <= k < |records| - 1 ==> records[..|records| - 1][k] == records[k];
      if "md5" in last then rest + {Hex(last["md5"])} else rest
  }

  /** The loop over the source collections. */
  function LoadCollections(cols: seq<string>, store: string -> seq<Record>): (r: set<Fingerprint>)
    ensures forall fp :: fp in r <==> fp.Hex? && Stored(cols, store, fp.digest)
  {
    if |cols| == 0 then {}
    else
      var rest := LoadCollections(cols[..|cols| - 1], store);
      var loaded := LoadRecords(store(cols[|cols| - 1]));
      assert forall c :: c in cols <==> c in cols[..|cols| - 1] || c == cols[|cols| - 1] by {
        assert cols == cols[..|cols| - 1] + [cols[|cols| - 1]];
      }
      rest + loaded
  }

  /** `TxtDuplicateFilter(md5Vals, md5SourceCols)`: seeded from the literal
      list when it has more than one element, else from the `md5` fields of
      the source collections, else empty. */
  function Init(md5Vals: seq<string>, md5SourceCols: seq<string>, store: string -> seq<Record>): (f: Filter)
    ensures |md5Vals| > 1 ==> forall fp :: fp in f.md5s <==> fp.Hex? && fp.digest in md5Vals
    ensures |md5Vals| <= 1 && |md5SourceCols| > 0 ==>
              forall fp :: fp in f.md5s <==> fp.Hex? && Stored(md5SourceCols, store, fp.digest)
    ensures |md5Vals| <= 1 && |md5SourceCols| == 0 ==> f.md5s == {}
    ensures Zero !in f.md5s
  {
    if |md5Vals| > 1 then Filter(set v | v in md5Vals :: Hex(v))
    else if |md5SourceCols| > 0 then Filter(LoadCollections(md5SourceCols, store))
    else Filter({})
  }

  /** The fingerprint `checkDuplicate` computes for a text: the digest of its
      top segments fed to the hasher back to back. */
  function ContentFingerPrint(content: string, md5: string -> string): Fingerprint
  {
    Hex(md5(Concat(TopSentences(content, TopNum))))
  }

  /** `checkDuplicate(content)`: the fingerprint of the 50 longest segments;
      a duplicate when already present, otherwise recorded. */
  function CheckDuplicate(f: Filter, content: string, md5: string -> string): (c: Checked)
    ensures c.fp == ContentFingerPrint(content, md5)
    ensures c.isDuplicate <==> c.fp in f.md5s
    ensures c.isDuplicate ==> c.after == f
    ensures !c.isDuplicate ==> c.after.md5s == f.md5s + {c.fp} && c.fp !in f.md5s
    ensures c.after.md5s == f.md5s + {c.fp}
  {
    var input := TopSentences(content, TopNum);
    var md5Val := ReferenceFingerPrint(input, false, (u: string) => u, md5);
    if md5Val in f.md5s then Checked(true, md5Val, f)
    else Checked(false, md5Val, Filter(f.md5s + {md5Val}))
  }

  /** A second check of the same text right after the first reports a
      duplicate with the same fingerprint and changes nothing. */
  lemma RepeatIsDuplicate(f: Filter, content: string, md5: string -> string)
    ensures var first := CheckDuplicate(f, content, md5);
      var second := CheckDuplicate(first.after, content, md5);
      && second.isDuplicate
      && second.fp == first.fp
      && second.after == first.after
  {
  }

  /** The fingerprints of the given texts. */
  function Seen(contents: seq<string>, md5: string -> string): set<Fingerprint>
  {
    Image(contents, (c: string) => ContentFingerPrint(c, md5))
  }

  /** The filter after checking each text in turn. */
  function Run(f: Filter, contents: seq<string>, md5: string -> string): (g: Filter)
    ensures g.md5s == f.md5s + Seen(contents, md5)
  {
    if |contents| == 0 then f
    else
      var prefix := contents[..|contents| - 1];
      var before := Run(f, prefix, md5);
      ImageAppend(contents, (c: string) => ContentFingerPrint(c, md5));
      CheckDuplicate(before, contents[|contents| - 1], md5).after
  }

  /** The images of a list's elements. */
  function Image<T, U>(xs: seq<T>, g: T -> U): set<U>
  {
    set k | 0 <= k < |xs| :: g(xs[k])
  }

  /** The images of a list are those of all but the last element, and the
      last one's. */
  lemma ImageAppend<T, U>(xs: seq<T>, g: T -> U)
    requires |xs| > 0
    ensures Image(xs, g) == Image(xs[..|xs| - 1], g) + {g(xs[|xs| - 1])}
  {
  }

  /** The set only grows, and once a text has been checked every later check
      of it reports a duplicate, whatever was checked in between. */
  lemma SeenStaysDuplicate(f: Filter, contents: seq<string>, md5: string -> string, later: seq<string>, k: int)
    requires 0 <= k < |contents|
    ensures f.md5s <= Run(f, contents + later, md5).md5s
    ensures CheckDuplicate(Run(f, contents + later, md5), contents[k], md5).isDuplicate
  {
    assert (contents + later)[k] == contents[k];
  }

  /** The `0` sentinel never enters the set: seeds are digests, and every
      check records a digest. */
  lemma SentinelNeverStored(md5Vals: seq<string>, md5SourceCols: seq<string>, store: string -> seq<Record>,
                            contents: seq<string>, md5: string -> string)
    ensures Zero !in Run(Init(md5Vals, md5SourceCols, store), contents, md5).md5s
  {
  }

  /** A single literal fingerprint is not enough to seed from the list: with
      no source collections the filter starts empty, and even a text whose
      fingerprint is that very value is reported new. */
  lemma SingleSeedIgnored(v: string, store: string -> seq<Record>, content: string, md5: string -> string)
    requires ContentFingerPrint(content, md5) == Hex(v)
    ensures Init([v], [], store).md5s == {}
    ensures !CheckDuplicate(Init([v], [], store), content, md5).isDuplicate
  {
  }

  /** Seeding from a literal list and bulk-loading the same fingerprints from
      the store give the same filter, hence the same answers to every check. */
  lemma BulkSeedEquivalence(md5Vals: seq<string>, md5SourceCols: seq<string>, store: string -> seq<Record>)
    requires |md5Vals| > 1 && |md5SourceCols| > 0
    requires forall v :: v in md5Vals <==> Stored(md5SourceCols, store, v)
    ensures Init(md5Vals, [], store) == Init([], md5SourceCols, store)
  {
  }

  /** The segments are fed to the hasher with nothing between them, so texts
      whose top segments concatenate alike collide whatever the hash: "a,,b"
      ranks to `["a", "b", ""]` and "ab" to `["ab"]`, both hashing "ab". With
      an empty filter the first is new and the second, a different text, is
      reported its duplicate. */
  lemma SegmentBoundaryCollision(store: string -> seq<Record>, md5: string -> string)
    ensures var first := CheckDuplicate(Init([], [], store), "a,,b", md5);
      && !first.isDuplicate
      && CheckDuplicate(first.after, "ab", md5).isDuplicate
  {
    assert Normalize("a,,b") == "a,,b";
    assert Join(["a", "", "b"], ',') == "a,,b";
    SplitJoin(["a", "", "b"], ',');
    assert SortByKey(["b"]) == ["b"];
    assert SortByKey(["", "b"]) == ["b", ""];
    assert SortByKey(["a", "", "b"]) == ["a", "b", ""];
    assert TopSentences("a,,b", TopNum) == ["a", "b", ""];
    assert Concat(["a", "b", ""]) == "ab" by {
      assert ["a", "b", ""][..2] == ["a", "b"];
      assert ["a", "b"][..1] == ["a"];
      ConcatSingle("a");
    }
    assert Normalize("ab") == "ab";
    SplitNoSeparator("ab", ',');
    assert TopSentences("ab", TopNum) == ["ab"];
    ConcatSingle("ab");
  }
}
