/**
 The fingerprint generator, `getFingerPrint` in
 zijiyou/zijiyou/common/utilities.py. MD5 and the URL canonicaliser are
 black boxes passed in as functions; hashlib's incremental hasher is modelled
 by the bytes it has been fed.
 */
module Fingerprints {
  import opened Strings

  /** The source returns the integer 0 for an empty input list and a hex
      digest string otherwise. */
  datatype Fingerprint = Zero | Hex(digest: string)

  /** A hashlib MD5 object: everything fed to it so far, in order. */
  datatype Hasher = Hasher(fed: string)

  /** `hasher.update(chunk)` */
  function Update(h: Hasher, chunk: string): Hasher
  {
    Hasher(h.fed + chunk)
  }

  /** `hasher.hexdigest()` */
  function HexDigest(h: Hasher, md5: string -> string): string
  {
    md5(h.fed)
  }

  /** The pieces one URL contributes: the canonical URL split on `?`; when
      that gives exactly a path and a query, the query's `&`-pieces follow the
      path, sorted when there is more than one. */
  function ExpandUrl(url: string, canon: string -> string): seq<string>
  {
    var tokens := Split(canon(url), '?');
    if |tokens| == 2 then
      var temps := Split(tokens[1], '&');
      [tokens[0]] + (if |temps| > 1 then SortStrings(temps) else temps)
    else
      tokens
  }

  /** A canonical URL with exactly one `?` contributes its path and then its
      query's `&`-pieces, rearranged into sorted order; any other canonical
      URL contributes its `?`-pieces unchanged and in order. */
  lemma ExpandUrlSpec(url: string, canon: string -> string)
    ensures var r := ExpandUrl(url, canon);
      var tokens := Split(canon(url), '?');
      && |r| >= 1
      && (Count(canon(url), '?') == 1 <==> |tokens| == 2)
      && (|tokens| == 2 ==>
            && |r| >= 2
            && r[0] == tokens[0] && '?' !in r[0]
            && Sorted(r[1..])
            && multiset(r[1..]) == multiset(Split(tokens[1], '&')))
      && (|tokens| != 2 ==> Join(r, '?') == canon(url) && forall i :: 0 <= i < |r| ==> '?' !in r[i])
  {
    var tokens := Split(canon(url), '?');
    SplitLength(canon(url), '?');
    JoinSplit(canon(url), '?');
    if |tokens| == 2 {
      var temps := Split(tokens[1], '&');
      var r := ExpandUrl(url, canon);
      assert r[1..] == (if |temps| > 1 then SortStrings(temps) else temps);
      SortStringsSpec(temps);
    }
  }

  /** The pieces of every element, in order. */
  function FlatMap(xs: seq<string>, f: string -> seq<string>): seq<string>
  {
    if |xs| == 0 then [] else FlatMap(xs[..|xs| - 1], f) + f(xs[|xs| - 1])
  }

  /** The URL-mode list of chunks: each URL's pieces, in input order. */
  function ExpandUrls(urls: seq<string>, canon: string -> string): seq<string>
  {
    FlatMap(urls, (u: string) => ExpandUrl(u, canon))
  }

  /** The chunks fed to the hasher (`newInputs` in the source). */
  function Chunks(inputs: seq<string>, isUrl: bool, canon: string -> string): seq<string>
  {
    if isUrl then ExpandUrls(inputs, canon) else inputs
  }

  /** The fingerprint the source computes, stated as the digest of all chunks
      concatenated, or the sentinel when there are none. */
  function ReferenceFingerPrint(inputs: seq<string>, isUrl: bool, canon: string -> string, md5: string -> string): (fp: Fingerprint)
    ensures fp == Zero <==> |Chunks(inputs, isUrl, canon)| == 0
  {
    var chunks := Chunks(inputs, isUrl, canon);
    if |chunks| == 0 then Zero else Hex(md5(Concat(chunks)))
  }

  /** No element of `s` at an index past `bound` is smaller than any element
      before it: the suffix after `bound` is sorted and in its final place. */
  ghost predicate SettledAfter(s: seq<string>, bound: int)
  {
    forall i, j :: 0 <= i < j < |s| && bound < j ==> !Less(s[j], s[i])
  }

  /** One pass of the inner loop over `r[0..end]`: adjacent pieces out of order
      are swapped and `lastX` records the last swap. Everything after `lastX`
      is then settled. */
  method BubblePass(r: seq<string>, end: int) returns (s: seq<string>, lastX: int)
    requires 0 < end < |r|
    requires SettledAfter(r, end)
    ensures |s| == |r| && multiset(s) == multiset(r)
    ensures 0 <= lastX < end
    ensures SettledAfter(s, lastX)
  {
    s := r;
    lastX := 0;
    var index := 0;
    while index < end
      invariant 0 <= index <= end && 0 <= lastX < end && lastX <= index
      invariant |s| == |r| && multiset(s) == multiset(r)
      invariant forall k :: 0 <= k < index ==> !Less(s[index], s[k])
      invariant forall i, j :: 0 <= i < j <= index && lastX < j ==> !Less(s[j], s[i])
      invariant SettledAfter(s, end)
    {
      if Less(s[index + 1], s[index]) {
        s := SwapStep(s, index, end);
        lastX := index;
      } else {
        forall i, j | 0 <= i < j <= index + 1 && lastX < j
          ensures !Less(s[j], s[i])
        {
          if j == index + 1 && i < index {
            NotLessTransitive(s[i], s[index], s[index + 1]);
          }
        }
      }
      index := index + 1;
    }
  }

  /** Swapping an out-of-order neighbour pair carries the running maximum one
      place right and keeps the settled suffix. */
  function SwapStep(s: seq<string>, index: int, end: int): (t: seq<string>)
    requires 0 <= index < end < |s|
    requires Less(s[index + 1], s[index])
    requires forall k :: 0 <= k < index ==> !Less(s[index], s[k])
    requires SettledAfter(s, end)
    ensures |t| == |s| && multiset(t) == multiset(s)
    ensures forall k :: 0 <= k < index + 1 ==> !Less(t[index + 1], t[k])
    ensures SettledAfter(t, end)
  {
    var t := s[index := s[index + 1]][index + 1 := s[index]];
    SwapPermutes(s, index);
    assert forall k :: 0 <= k < index + 1 ==> !Less(t[index + 1], t[k]) by {
      forall k | 0 <= k < index + 1
        ensures !Less(t[index + 1], t[k])
      {
        if k == index {
          LessIrreflexive(s[index]);
          if Less(s[index], s[index + 1]) { LessTransitive(s[index], s[index + 1], s[index]); }
        } else {
          assert t[k] == s[k];
        }
      }
    }
    assert SettledAfter(t, end) by {
      forall i, j | 0 <= i < j < |t| && end < j
        ensures !Less(t[j], t[i])
      {
        assert t[j] == s[j];
        if i == index { assert !Less(s[j], s[index + 1]); }
        else if i == index + 1 { assert !Less(s[j], s[index]); }
        else { assert t[i] == s[i]; }
      }
    }
    t
  }

  /** Swapping two neighbours permutes a sequence. */
  lemma SwapPermutes(s: seq<string>, index: int)
    requires 0 <= index < |s| - 1
    ensures multiset(s[index := s[index + 1]][index + 1 := s[index]]) == multiset(s)
  {
  }

  /** The bubble sort of query pieces, with the shrinking bound `lastX`: the
      last swap of a pass marks where the unsorted prefix ends. It terminates
      and yields the sorted arrangement of its input. */
  method BubbleSort(pieces: seq<string>) returns (r: seq<string>)
    ensures Sorted(r)
    ensures multiset(r) == multiset(pieces)
    ensures r == SortStrings(pieces)
  {
    r := pieces;
    var end := |r| - 1;
    while end > 0
      invariant |r| == |pieces| && end < |r|
      invariant multiset(r) == multiset(pieces)
      invariant SettledAfter(r, end)
      decreases end
    {
      var lastX;
      r, lastX := BubblePass(r, end);
      end := lastX;
    }
    SortStringsSpec(pieces);
    SortedUnique(r, SortStrings(pieces));
  }

  /** `getFingerPrint(inputs, isUrl)` as written: the URL expansion loop
      builds `newInputs`, which is then hashed chunk by chunk. */
  method GetFingerPrint(inputs: seq<string>, isUrl: bool, canon: string -> string, md5: string -> string)
    returns (fp: Fingerprint)
    ensures fp == Zero <==> |Chunks(inputs, isUrl, canon)| == 0
    ensures fp != Zero ==> fp == Hex(md5(Concat(Chunks(inputs, isUrl, canon))))
  {
    var newInputs: seq<string> := [];
    if isUrl {
      var i := 0;
      while i < |inputs|
        invariant 0 <= i <= |inputs|
        invariant newInputs == ExpandUrls(inputs[..i], canon)
      {
        var newTokens := ExpandOne(inputs[i], canon);
        newInputs := newInputs + newTokens;
        assert inputs[..i + 1][..i] == inputs[..i];
        i := i + 1;
      }
      assert inputs[..|inputs|] == inputs;
    } else {
      newInputs := inputs;
    }
    fp := HashChunks(newInputs, md5);
  }

  /** The body of the URL loop for one URL `p`. */
  method ExpandOne(p: string, canon: string -> string) returns (newTokens: seq<string>)
    ensures newTokens == ExpandUrl(p, canon)
  {
    var tokens := Split(canon(p), '?');
    if |tokens| == 2 {
      var temps := Split(tokens[1], '&');
      if |temps| > 1 {
        temps := BubbleSort(temps);
      }
      newTokens := [tokens[0]] + temps;
    } else {
      newTokens := tokens;
    }
  }

  /** The hashing tail of `getFingerPrint`: the sentinel for no chunks,
      otherwise a hasher seeded with the first chunk and updated with each
      later one; its digest is that of all chunks concatenated. */
  method HashChunks(newInputs: seq<string>, md5: string -> string) returns (fp: Fingerprint)
    ensures fp == Zero <==> |newInputs| == 0
    ensures fp != Zero ==> fp == Hex(md5(Concat(newInputs)))
  {
    if |newInputs| < 1 {
      return Zero;
    }
    var hasher := Hasher(newInputs[0]);
    assert newInputs[..1] == [newInputs[0]] && newInputs[..1][..0] == [];
    if |newInputs| < 2 {
      assert newInputs[..|newInputs| - 1] == [];
      assert Concat(newInputs) == newInputs[0];
      return Hex(HexDigest(hasher, md5));
    }
    var index := 1;
    while index < |newInputs|
      invariant 1 <= index <= |newInputs|
      invariant hasher.fed == Concat(newInputs[..index])
    {
      assert newInputs[..index + 1][..index] == newInputs[..index];
      hasher := Update(hasher, newInputs[index]);
      index := index + 1;
    }
    assert newInputs[..index] == newInputs;
    fp := Hex(HexDigest(hasher, md5));
  }

  /** One URL in URL mode contributes exactly its own pieces. */
  lemma ExpandSingleUrl(url: string, canon: string -> string)
    ensures ExpandUrls([url], canon) == ExpandUrl(url, canon)
  {
    var f := (u: string) => ExpandUrl(u, canon);
    assert [url][..0] == [];
    assert FlatMap([url], f) == FlatMap([], f) + f(url);
  }

  /** Mapping over two lists back to back is mapping over each and
      appending. */
  lemma {:induction false} FlatMapAppend(a: seq<string>, b: seq<string>, f: string -> seq<string>)
    ensures FlatMap(a + b, f) == FlatMap(a, f) + FlatMap(b, f)
    decreases |b|
  {
    if |b| == 0 {
      assert a + b == a;
    } else {
      var b' := b[..|b| - 1];
      assert (a + b)[..|a + b| - 1] == a + b';
      assert (a + b)[|a + b| - 1] == b[|b| - 1];
      FlatMapAppend(a, b', f);
    }
  }

  /** URL mode handles each URL on its own: expanding two lists back to back
      is expanding each and appending. */
  lemma ExpandUrlsAppend(a: seq<string>, b: seq<string>, canon: string -> string)
    ensures ExpandUrls(a + b, canon) == ExpandUrls(a, canon) + ExpandUrls(b, canon)
  {
    FlatMapAppend(a, b, (u: string) => ExpandUrl(u, canon));
  }

  /** A canonical URL `path?query` contributes the path followed by the
      query's `&`-pieces in sorted order, whatever order they came in. */
  lemma UrlWithQuery(url: string, canon: string -> string, path: string, query: string)
    requires canon(url) == path + ['?'] + query
    requires '?' !in path && '?' !in query
    ensures ExpandUrl(url, canon) == [path] + SortStrings(Split(query, '&'))
  {
    assert Join([path, query], '?') == canon(url);
    SplitJoin([path, query], '?');
    var temps := Split(query, '&');
    if |temps| == 1 {
      assert SortStrings(temps) == Insert(temps[0], SortStrings([]));
      assert temps == [temps[0]];
    }
  }

  /** A query with a single parameter is appended as it is, after the path. */
  lemma UrlWithOneParameter(url: string, canon: string -> string, path: string, query: string)
    requires canon(url) == path + ['?'] + query
    requires '?' !in path && '?' !in query && '&' !in query
    ensures ExpandUrl(url, canon) == [path, query]
  {
    assert Join([path, query], '?') == canon(url);
    SplitJoin([path, query], '?');
    SplitNoSeparator(query, '&');
  }

  /** A canonical URL without `?` is hashed as it stands. */
  lemma UrlWithoutQuery(url: string, canon: string -> string, md5: string -> string)
    requires '?' !in canon(url)
    ensures ExpandUrl(url, canon) == [canon(url)]
    ensures ReferenceFingerPrint([url], true, canon, md5) == Hex(md5(canon(url)))
  {
    SplitNoSeparator(canon(url), '?');
    ExpandSingleUrl(url, canon);
    ConcatSingle(canon(url));
  }

  /** Query-order invariance: two URLs whose canonical forms share the path
      and whose queries hold the same parameters, in any order, get the same
      fingerprint. */
  lemma QueryOrderInvariance(u1: string, u2: string, canon: string -> string, md5: string -> string,
                             path: string, q1: string, q2: string)
    requires canon(u1) == path + ['?'] + q1 && canon(u2) == path + ['?'] + q2
    requires '?' !in path && '?' !in q1 && '?' !in q2
    requires multiset(Split(q1, '&')) == multiset(Split(q2, '&'))
    ensures ExpandUrl(u1, canon) == ExpandUrl(u2, canon)
    ensures ReferenceFingerPrint([u1], true, canon, md5) == ReferenceFingerPrint([u2], true, canon, md5)
  {
    UrlWithQuery(u1, canon, path, q1);
    UrlWithQuery(u2, canon, path, q2);
    SortStringsSpec(Split(q1, '&'));
    SortStringsSpec(Split(q2, '&'));
    SortedUnique(SortStrings(Split(q1, '&')), SortStrings(Split(q2, '&')));
    ExpandSingleUrl(u1, canon);
    ExpandSingleUrl(u2, canon);
  }

  /** Path sensitivity, for a hash without collisions: two query-less URLs
      with different canonical forms get different fingerprints. */
  lemma PathSensitivity(u1: string, u2: string, canon: string -> string, md5: string -> string)
    requires forall a, b :: md5(a) == md5(b) ==> a == b
    requires '?' !in canon(u1) && '?' !in canon(u2)
    requires canon(u1) != canon(u2)
    ensures ReferenceFingerPrint([u1], true, canon, md5) != ReferenceFingerPrint([u2], true, canon, md5)
  {
    UrlWithoutQuery(u1, canon, md5);
    UrlWithoutQuery(u2, canon, md5);
  }

  /** The chunks are fed to the hasher with nothing between them, so the
      path/query boundary is lost: `path?query` with a single parameter and
      the query-less `pathquery` get the same fingerprint, whatever the hash.
      This is why `PathSensitivity` is stated only for query-less URLs. */
  lemma QueryBoundaryCollision(u1: string, u2: string, canon: string -> string, md5: string -> string,
                               path: string, query: string)
    requires canon(u1) == path + ['?'] + query && canon(u2) == path + query
    requires '?' !in path && '?' !in query && '&' !in query
    ensures u1 != u2
    ensures ReferenceFingerPrint([u1], true, canon, md5) == ReferenceFingerPrint([u2], true, canon, md5)
  {
    assert canon(u1)[|path|] == '?';
    UrlWithOneParameter(u1, canon, path, query);
    ExpandSingleUrl(u1, canon);
    assert [path, query][..1] == [path];
    ConcatSingle(path);
    assert Concat([path, query]) == path + query;
    assert '?' !in path + query by {
      forall i | 0 <= i < |path + query|
        ensures (path + query)[i] != '?'
      {
        if i < |path| { assert (path + query)[i] == path[i]; }
        else { assert (path + query)[i] == query[i - |path|]; }
      }
    }
    UrlWithoutQuery(u2, canon, md5);
  }

  /** In text mode a one-element list hashes just that element. */
  lemma TextSingle(x: string, canon: string -> string, md5: string -> string)
    ensures ReferenceFingerPrint([x], false, canon, md5) == Hex(md5(x))
  {
    ConcatSingle(x);
  }

  /** In text mode the fingerprint depends only on the concatenation of the
      list: cutting one chunk in two does not change it. */
  lemma TextChunking(a: seq<string>, x: string, y: string, b: seq<string>, canon: string -> string, md5: string -> string)
    ensures ReferenceFingerPrint(a + [x + y] + b, false, canon, md5) == ReferenceFingerPrint(a + [x, y] + b, false, canon, md5)
  {
    ConcatAppend(a + [x + y], b);
    ConcatAppend(a + [x, y], b);
    ConcatAppend(a, [x + y]);
    ConcatAppend(a, [x, y]);
    ConcatSingle(x);
    ConcatSingle(x + y);
    assert [x, y][..1] == [x];
    assert Concat([x, y]) == x + y;
  }

  /** Two non-empty chunk lists that concatenate alike get the same
      fingerprint, whatever the hash: the hasher sees only the concatenation. */
  lemma SameConcatenation(a: seq<string>, aIsUrl: bool, b: seq<string>, bIsUrl: bool,
                          canon: string -> string, md5: string -> string)
    requires |Chunks(a, aIsUrl, canon)| > 0 && |Chunks(b, bIsUrl, canon)| > 0
    requires Concat(Chunks(a, aIsUrl, canon)) == Concat(Chunks(b, bIsUrl, canon))
    ensures ReferenceFingerPrint(a, aIsUrl, canon, md5) == ReferenceFingerPrint(b, bIsUrl, canon, md5)
  {
  }

  /** Non-emptiness matters: no chunks and one empty chunk concatenate alike,
      yet the first gives the sentinel and the second the digest of the empty
      string. A URL whose canonical form is empty is one such empty chunk. */
  lemma EmptyChunkIsNotNothing(u: string, canon: string -> string, md5: string -> string)
    requires canon(u) == ""
    ensures Concat([]) == Concat([""])
    ensures ReferenceFingerPrint([], false, canon, md5) == Zero
    ensures ReferenceFingerPrint([""], false, canon, md5) == Hex(md5(""))
    ensures ReferenceFingerPrint([], true, canon, md5) == Zero
    ensures ReferenceFingerPrint([u], true, canon, md5) == Hex(md5(""))
  {
    ConcatSingle("");
    UrlWithoutQuery(u, canon, md5);
  }
}

