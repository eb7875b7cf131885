/**
 Salient-segment ranking, `TxtDuplicateFilter.getTopSentences` and `getKey` in
 zijiyou/zijiyou/common/utilities.py: the text is cut at sentence punctuation
 and the longest segments are kept.
 */
module Segmentation {
  import opened Strings

  /** The character class `[，。：；？！……\r\n]`: full-width comma, full stop,
      colon, semicolon, question and exclamation marks, the ellipsis (listed
      twice in the class, a set of one here), carriage return and line feed. */
  predicate IsDelimiter(c: char)
  {
    c in {'，', '。', '：', '；', '？', '！', '…', '\r', '\n'}
  }

  /** A character that ends a segment: a delimiter, or an ASCII comma already
      in the text (the split is on `,` after the substitution). */
  predicate IsBreak(c: char)
  {
    IsDelimiter(c) || c == ','
  }

  /** `re.sub(delimiters, ',', content)`: every delimiter becomes an ASCII
      comma, every other character stays. */
  function Normalize(content: string): (r: string)
    ensures |r| == |content|
    ensures forall i :: 0 <= i < |r| ==> !IsDelimiter(r[i])
    ensures forall i :: 0 <= i < |r| ==> (r[i] == ',' <==> IsBreak(content[i]))
    ensures forall i :: 0 <= i < |r| && !IsBreak(content[i]) ==> r[i] == content[i]
  {
    seq(|content|, i requires 0 <= i < |content| => if IsDelimiter(content[i]) then ',' else content[i])
  }

  /** `content.split(',')` after the substitution. Empty segments are kept. */
  function Segments(content: string): seq<string>
  {
    Split(Normalize(content), ',')
  }

  /** Number of break characters in the text. */
  function BreakCount(content: string): nat
  {
    if |content| == 0 then 0
    else (if IsBreak(content[0]) then 1 else 0) + BreakCount(content[1..])
  }

  /** The substitution turns exactly the break characters into commas. */
  lemma {:induction false} NormalizeCount(content: string)
    ensures Count(Normalize(content), ',') == BreakCount(content)
    decreases |content|
  {
    if |content| > 0 {
      var n := Normalize(content);
      NormalizeCount(content[1..]);
      assert n[1..] == Normalize(content[1..]);
      assert n == [n[0]] + n[1..];
      assert multiset(n) == multiset{n[0]} + multiset(n[1..]);
    }
  }

  /** The segments are the maximal break-free runs of the text: there is one
      more than there are break characters, none holds a break, and joined
      with commas they give back the text with every break written as `,`. */
  lemma SegmentsSpec(content: string)
    ensures |Segments(content)| == BreakCount(content) + 1
    ensures forall k, i :: 0 <= k < |Segments(content)| && 0 <= i < |Segments(content)[k]| ==> !IsBreak(Segments(content)[k][i])
    ensures Join(Segments(content), ',') == Normalize(content)
  {
    var n := Normalize(content);
    var segs := Segments(content);
    SplitLength(n, ',');
    NormalizeCount(content);
    JoinSplit(n, ',');
    forall k, i | 0 <= k < |segs| && 0 <= i < |segs[k]|
      ensures !IsBreak(segs[k][i])
    {
      assert segs[k][i] != ',';
      JoinedPieceChars(segs, ',', k, i);
      var j :| 0 <= j < |n| && n[j] == segs[k][i];
    }
  }

  /** `getKey`: a segment ranks by its length in characters. */
  function Key(segment: string): nat
  {
    |segment|
  }

  /** Longest first. */
  ghost predicate DescendingByKey(s: seq<string>)
  {
    forall i, j :: 0 <= i < j < |s| ==> Key(s[j]) <= Key(s[i])
  }

  /** The elements of `s` whose key is `n`, in their order in `s`. */
  function OfKey(s: seq<string>, n: nat): seq<string>
  {
    if |s| == 0 then []
    else (if Key(s[0]) == n then [s[0]] else []) + OfKey(s[1..], n)
  }

  /** Inserts `x` in front of the first element that is no longer than it,
      so `x` stays ahead of the equal-length elements that followed it. */
  function InsertByKey(x: string, s: seq<string>): (r: seq<string>)
    ensures |r| == |s| + 1
  {
    if |s| == 0 then [x]
    else if Key(s[0]) <= Key(x) then [x] + s
    else [s[0]] + InsertByKey(x, s[1..])
  }

  /** Inserting into a longest-first list keeps it longest first and adds `x`. */
  lemma {:induction false} InsertByKeySpec(x: string, s: seq<string>)
    requires DescendingByKey(s)
    ensures DescendingByKey(InsertByKey(x, s))
    ensures multiset(InsertByKey(x, s)) == multiset(s) + multiset{x}
    decreases |s|
  {
    var r := InsertByKey(x, s);
    if |s| == 0 {
    } else if Key(s[0]) <= Key(x) {
      assert r == [x] + s;
      ConsDescending(x, s);
    } else {
      var tail := InsertByKey(x, s[1..]);
      assert r == [s[0]] + tail;
      assert s == [s[0]] + s[1..];
      assert DescendingByKey(s[1..]);
      InsertByKeySpec(x, s[1..]);
      NoLongerThan(tail, s[1..], x, Key(s[0]));
      ConsDescending(s[0], tail);
    }
  }

  /** Putting an element no shorter than everything in front of a
      longest-first list keeps it longest first. */
  lemma ConsDescending(h: string, t: seq<string>)
    requires DescendingByKey(t)
    requires forall j :: 0 <= j < |t| ==> Key(t[j]) <= Key(h)
    ensures DescendingByKey([h] + t)
  {
  }

  /** A permutation of `s + [x]` is bounded by whatever bounds `s` and `x`. */
  lemma NoLongerThan(t: seq<string>, s: seq<string>, x: string, bound: nat)
    requires multiset(t) == multiset(s) + multiset{x}
    requires Key(x) <= bound && forall k :: 0 <= k < |s| ==> Key(s[k]) <= bound
    ensures forall j :: 0 <= j < |t| ==> Key(t[j]) <= bound
  {
    forall j | 0 <= j < |t| ensures Key(t[j]) <= bound {
      assert t[j] in multiset(t);
      if t[j] != x {
        assert t[j] in multiset(s);
      }
    }
  }

  /** Inserting `x` puts it first among the elements of its length and
      leaves every other length class as it was. */
  lemma {:induction false} InsertByKeyStable(x: string, s: seq<string>, n: nat)
    ensures OfKey(InsertByKey(x, s), n) == (if Key(x) == n then [x] else []) + OfKey(s, n)
    decreases |s|
  {
    var r := InsertByKey(x, s);
    if |s| == 0 {
      assert OfKey([x], n) == (if Key(x) == n then [x] else []) + OfKey([], n);
    } else if Key(s[0]) <= Key(x) {
      assert r[1..] == s;
    } else {
      var tail := InsertByKey(x, s[1..]);
      InsertByKeyStable(x, s[1..], n);
      assert r == [s[0]] + tail;
      assert r[1..] == tail;
      assert OfKey(r, n) == (if Key(s[0]) == n then [s[0]] else []) + OfKey(tail, n);
      assert OfKey(s, n) == (if Key(s[0]) == n then [s[0]] else []) + OfKey(s[1..], n);
    }
  }

  /** Python's `sorted(segments, key=getKey, reverse=True)`, as insertion
      from the back. */
  function SortByKey(s: seq<string>): (r: seq<string>)
    ensures |r| == |s|
  {
    if |s| == 0 then [] else InsertByKey(s[0], SortByKey(s[1..]))
  }

  /** The sort puts the longest first and permutes its input. */
  lemma {:induction false} SortByKeyPermutes(s: seq<string>)
    ensures DescendingByKey(SortByKey(s))
    ensures multiset(SortByKey(s)) == multiset(s)
    decreases |s|
  {
    if |s| > 0 {
      SortByKeyPermutes(s[1..]);
      InsertByKeySpec(s[0], SortByKey(s[1..]));
      assert s == [s[0]] + s[1..];
    }
  }

  /** The sort keeps the length class `n` in input order. */
  lemma {:induction false} SortByKeyStable(s: seq<string>, n: nat)
    ensures OfKey(SortByKey(s), n) == OfKey(s, n)
    decreases |s|
  {
    if |s| > 0 {
      SortByKeyStable(s[1..], n);
      InsertByKeyStable(s[0], SortByKey(s[1..]), n);
    }
  }

  /** The sort is a stable sort by descending length: longest first, a
      permutation of its input, each length class in input order; and it is
      the only arrangement with these three properties. */
  lemma SortByKeySpec(s: seq<string>)
    ensures DescendingByKey(SortByKey(s))
    ensures multiset(SortByKey(s)) == multiset(s)
    ensures forall n :: OfKey(SortByKey(s), n) == OfKey(s, n)
    ensures forall t :: DescendingByKey(t) && SameClasses(t, s) ==> t == SortByKey(s)
  {
    SortByKeyPermutes(s);
    forall n
      ensures OfKey(SortByKey(s), n) == OfKey(s, n)
    {
      SortByKeyStable(s, n);
    }
    forall t | DescendingByKey(t) && SameClasses(t, s)
      ensures t == SortByKey(s)
    {
      StableSortUnique(t, SortByKey(s));
    }
  }

  /** Some element has key `n` exactly when the elements of key `n` exist. */
  lemma {:induction false} OfKeyNonEmpty(s: seq<string>, n: nat, k: int)
    requires 0 <= k < |s| && Key(s[k]) == n
    ensures |OfKey(s, n)| > 0
    decreases k
  {
    if k > 0 {
      OfKeyNonEmpty(s[1..], n, k - 1);
    }
  }

  lemma {:induction false} OfKeyMember(s: seq<string>, n: nat)
    requires |OfKey(s, n)| > 0
    ensures exists k :: 0 <= k < |s| && Key(s[k]) == n
    decreases |s|
  {
    if Key(s[0]) != n {
      OfKeyMember(s[1..], n);
      var k :| 0 <= k < |s[1..]| && Key(s[1..][k]) == n;
      assert Key(s[k + 1]) == n;
    }
  }

  /** Every length class holds the same elements in the same order. */
  ghost predicate SameClasses(a: seq<string>, b: seq<string>)
  {
    forall n :: OfKey(a, n) == OfKey(b, n)
  }

  /** Two longest-first lists with the same length classes start alike. */
  lemma HeadsAgree(a: seq<string>, b: seq<string>)
    requires |a| > 0 && |b| > 0
    requires DescendingByKey(a) && DescendingByKey(b) && SameClasses(a, b)
    ensures a[0] == b[0]
  {
    OfKeyNonEmpty(b, Key(b[0]), 0);
    assert OfKey(a, Key(b[0])) == OfKey(b, Key(b[0]));
    OfKeyMember(a, Key(b[0]));
    OfKeyNonEmpty(a, Key(a[0]), 0);
    assert OfKey(a, Key(a[0])) == OfKey(b, Key(a[0]));
    OfKeyMember(b, Key(a[0]));
    assert Key(a[0]) == Key(b[0]);
    var n0 := Key(a[0]);
    assert OfKey(a, n0) == OfKey(b, n0);
    assert OfKey(a, n0) == [a[0]] + OfKey(a[1..], n0);
    assert OfKey(b, n0) == [b[0]] + OfKey(b[1..], n0);
    assert OfKey(a, n0)[0] == a[0] && OfKey(b, n0)[0] == b[0];
  }

  /** Dropping a common first element keeps the length classes equal. */
  lemma TailsAgree(a: seq<string>, b: seq<string>)
    requires |a| > 0 && |b| > 0 && a[0] == b[0] && SameClasses(a, b)
    ensures SameClasses(a[1..], b[1..])
  {
    forall n
      ensures OfKey(a[1..], n) == OfKey(b[1..], n)
    {
      var head := if Key(a[0]) == n then [a[0]] else [];
      assert OfKey(a, n) == head + OfKey(a[1..], n);
      assert OfKey(b, n) == head + OfKey(b[1..], n);
      assert OfKey(a[1..], n) == OfKey(a, n)[|head|..];
      assert OfKey(b[1..], n) == OfKey(b, n)[|head|..];
    }
  }

  /** Descending order with every length class kept in input order admits
      only one arrangement: stability pins the result down. */
  lemma {:induction false} StableSortUnique(a: seq<string>, b: seq<string>)
    requires DescendingByKey(a) && DescendingByKey(b)
    requires SameClasses(a, b)
    ensures a == b
    decreases |a| + |b|
  {
    if |a| == 0 && |b| == 0 {
    } else if |a| == 0 {
      OfKeyNonEmpty(b, Key(b[0]), 0);
      assert false;
    } else if |b| == 0 {
      OfKeyNonEmpty(a, Key(a[0]), 0);
      assert false;
    } else {
      HeadsAgree(a, b);
      TailsAgree(a, b);
      StableSortUnique(a[1..], b[1..]);
      assert a == [a[0]] + a[1..] && b == [b[0]] + b[1..];
    }
  }

  /** How many segments the selection loop keeps: it appends before it tests
      the counter, so at least one whenever there is one. */
  function TopCount(available: nat, topNum: int): nat
  {
    if available == 0 then 0
    else if topNum <= 1 then 1
    else if topNum < available then topNum
    else available
  }

  /** The selection loop: append, count down, stop at zero. */
  function TakeTop(ranked: seq<string>, topNum: int): (r: seq<string>)
    ensures |r| == TopCount(|ranked|, topNum)
    ensures r == ranked[..|r|]
  {
    if |ranked| == 0 then []
    else if topNum - 1 <= 0 then [ranked[0]]
    else
      var tail := TakeTop(ranked[1..], topNum - 1);
      assert [ranked[0]] + tail == ranked[..|tail| + 1];
      [ranked[0]] + tail
  }

  /** `getTopSentences(content, topNum)`: the first segments of the ranked
      list, as the selection loop takes them. */
  function TopSentences(content: string, topNum: int): (r: seq<string>)
    ensures 1 <= |r| <= |Segments(content)|
  {
    TakeTop(SortByKey(Segments(content)), topNum)
  }

  /** What the selection loop keeps of a ranked list: its first
      `TopCount` elements, all drawn from the list, none shorter than an
      element it drops. */
  lemma TakeTopSpec(ranked: seq<string>, topNum: int)
    requires DescendingByKey(ranked)
    ensures var r := TakeTop(ranked, topNum);
      && multiset(r) <= multiset(ranked)
      && forall i, j :: 0 <= i < |r| <= j < |ranked| ==> Key(ranked[j]) <= Key(r[i])
  {
    var r := TakeTop(ranked, topNum);
    assert ranked == r + ranked[|r|..];
    assert multiset(ranked) == multiset(r) + multiset(ranked[|r|..]);
  }

  /** The top sentences are the longest `topNum` segments (at least one),
      longest first with ties in text order: a prefix of the stable ranking,
      drawn from the segments, and no dropped segment is longer than a kept
      one. */
  lemma TopSentencesSpec(content: string, topNum: int)
    ensures var r := TopSentences(content, topNum);
      && (topNum >= 1 ==> |r| == if topNum < |Segments(content)| then topNum else |Segments(content)|)
      && (topNum <= 1 ==> |r| == 1)
      && r == SortByKey(Segments(content))[..|r|]
      && multiset(r) <= multiset(Segments(content))
      && forall i, j :: 0 <= i < |r| <= j < |Segments(content)| ==> Key(SortByKey(Segments(content))[j]) <= Key(r[i])
  {
    var segs := Segments(content);
    SortByKeySpec(segs);
    TakeTopSpec(SortByKey(segs), topNum);
  }
}
