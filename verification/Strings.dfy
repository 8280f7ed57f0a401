/** Trimming a string and splitting it into words. */
module Strings {
  import opened Base
  import opened Bytes

  predicate IsSpace(c: char) {
    !(c as int < 9 || (c as int > 13 && c as int != 32))
  }

  /** Tab, line feed, vertical tab, form feed, carriage return and blank. */
  lemma SpacesAre(c: char)
    ensures IsSpace(c) <==> c in ['\t', '\n', 11 as char, 12 as char, '\r', ' ']
  {
  }

  /** Positions a up to b are a maximal stretch without spaces. */
  ghost predicate IsWord(s: string, a: nat, b: nat) {
    && a < b <= |s| && (forall i :: a <= i < b ==> !IsSpace(s[i]))
    && (a == 0 || IsSpace(s[a - 1])) && (b == |s| || IsSpace(s[b]))
  }

  /** The end of the stretch without spaces from i on. */
  function WordEnd(s: string, i: nat): (e: nat)
    requires i <= |s|
    ensures i <= e <= |s|
    decreases |s| - i
  {
    if i < |s| && !IsSpace(s[i]) then WordEnd(s, i + 1) else i
  }

  /** Where the words from i on start and end. */
  function Spans(s: string, i: nat): (r: seq<(nat, nat)>)
    requires i <= |s|
    ensures forall k :: 0 <= k < |r| ==> i <= r[k].0 < r[k].1 <= |s|
    decreases |s| - i
  {
    if i == |s| then []
    else if IsSpace(s[i]) then Spans(s, i + 1)
    else [(i, WordEnd(s, i))] + Spans(s, WordEnd(s, i))
  }

  /** The words from i on, in order. */
  function Words(s: string, i: nat): seq<string>
    requires i <= |s|
    decreases |s| - i
  {
    if i == |s| then []
    else if IsSpace(s[i]) then Words(s, i + 1)
    else [s[i..WordEnd(s, i)]] + Words(s, WordEnd(s, i))
  }

  /** Word k is what stands in span k. */
  lemma {:induction false} WordsAreSpans(s: string, i: nat)
    requires i <= |s|
    ensures |Words(s, i)| == |Spans(s, i)|
    ensures forall k :: 0 <= k < |Words(s, i)| ==> Words(s, i)[k] == s[Spans(s, i)[k].0..Spans(s, i)[k].1]
    decreases |s| - i
  {
    if i < |s| {
      WordsAreSpans(s, if IsSpace(s[i]) then i + 1 else WordEnd(s, i));
    }
  }

  lemma {:induction false} WordEndIs(s: string, i: nat)
    requires i <= |s|
    ensures forall k :: i <= k < WordEnd(s, i) ==> !IsSpace(s[k])
    ensures WordEnd(s, i) == |s| || IsSpace(s[WordEnd(s, i)])
    decreases |s| - i
  {
    if i < |s| && !IsSpace(s[i]) {
      WordEndIs(s, i + 1);
    }
  }

  /** Words are the maximal stretches without spaces: all of them, and nothing else. */
  lemma {:induction false} SpansAreWords(s: string, i: nat, a: nat, b: nat)
    requires i <= |s| && (i == 0 || i == |s| || IsSpace(s[i]) || IsSpace(s[i - 1]))
    ensures (a, b) in Spans(s, i) <==> i <= a && IsWord(s, a, b)
    decreases |s| - i
  {
    if i == |s| {
    } else if IsSpace(s[i]) {
      SpansAreWords(s, i + 1, a, b);
    } else {
      var e := WordEnd(s, i);
      WordEndIs(s, i);
      SpansAreWords(s, e, a, b);
      if i <= a && IsWord(s, a, b) && a < e {
        OneWord(s, i, e, a, b);
      }
    }
  }

  /** Two words that share a position are one. */
  lemma OneWord(s: string, i: nat, e: nat, a: nat, b: nat)
    requires IsWord(s, a, b) && i <= a < e <= |s| && (forall k :: i <= k < e ==> !IsSpace(s[k]))
    requires e == |s| || IsSpace(s[e])
    ensures a == i && b == e
  {
  }

  /** They come in order. */
  lemma {:induction false} SpansAscend(s: string, i: nat, j: nat, k: nat)
    requires i <= |s| && j < k < |Spans(s, i)|
    ensures Spans(s, i)[j].1 <= Spans(s, i)[k].0
    decreases |s| - i
  {
    if IsSpace(s[i]) {
      SpansAscend(s, i + 1, j, k);
    } else if j > 0 {
      SpansAscend(s, WordEnd(s, i), j - 1, k - 1);
    }
  }

  /** t is s without spaces at either end; a says where it was. */
  ghost predicate Trims(s: string, t: string, a: nat) {
    && a + |t| <= |s| && t == s[a..a + |t|]
    && (forall i :: 0 <= i < a || a + |t| <= i < |s| ==> IsSpace(s[i]))
    && (t != "" ==> !IsSpace(t[0]) && !IsSpace(t[|t| - 1]))
  }

  method Trim(s: string) returns (t: string)
    ensures exists a: nat :: Trims(s, t, a)
  {
    var start: nat := 0;
    while start < |s| && IsSpace(s[start])
      invariant start <= |s| && forall i :: 0 <= i < start ==> IsSpace(s[i])
    {
      start := start + 1;
    }
    if start == |s| {
      assert Trims(s, "", start);
      return "";
    }
    var end := |s| - 1;
    while IsSpace(s[end])
      invariant start <= end < |s| && forall i :: end < i < |s| ==> IsSpace(s[i])
      decreases end
    {
      end := end - 1;
    }
    t := s[start..end + 1];
    assert Trims(s, t, start);
  }

  lemma FirstWord(s: string, i: nat, e: nat)
    requires i < |s| && !IsSpace(s[i]) && WordEnd(s, i) == e
    ensures i < e && Words(s, i) == [s[i..e]] + Words(s, e)
  {
  }

  /** The result holds the words in front of place i. */
  ghost predicate SoFar(result: seq<string>, s: string, i: nat) {
    i <= |s| && result + Words(s, i) == Words(s, 0)
  }

  lemma NextWord(result: seq<string>, s: string, i: nat, e: nat)
    requires SoFar(result, s, i) && e <= |s| && i < |s| && !IsSpace(s[i]) && WordEnd(s, i) == e
    ensures i < e && SoFar(result + [s[i..e]], s, e)
  {
    FirstWord(s, i, e);
    assert (result + [s[i..e]]) + Words(s, e) == result + ([s[i..e]] + Words(s, e));
  }

  lemma NextSpace(result: seq<string>, s: string, i: nat)
    requires SoFar(result, s, i) && i < |s| && IsSpace(s[i])
    ensures SoFar(result, s, i + 1)
  {
    SkipSpaces(s, i + 1, i);
  }

  lemma AllWords(result: seq<string>, s: string)
    ensures SoFar([], s, 0)
    ensures SoFar(result, s, |s|) ==> result == Words(s, 0)
  {
    NoMoreWords(s);
  }

  /** The length of the word at a place, by the first of the two inner loops. */
  method WordLength(base: string, offset: nat) returns (index: nat)
    requires offset <= |base|
    ensures offset + index == WordEnd(base, offset)
  {
    index := 0;
    while offset + index < |base| && !IsSpace(base[offset + index])
      invariant offset + index <= |base| && WordEnd(base, offset) == WordEnd(base, offset + index)
    {
      index := index + 1;
    }
  }

  /** Splits a string into its words. */
  method Split(s: string) returns (result: seq<string>)
    ensures result == Words(s, 0)
  {
    var base := Trim(s);
    ghost var a: nat :| Trims(s, base, a);
    TrimKeepsWords(s, base, a);
    hide Words, WordEnd, IsSpace, Trims, SoFar;
    result := [];
    var offset := 0;
    AllWords(result, base);
    while offset < |base|
      invariant 0 <= offset <= |base| && SoFar(result, base, offset)
      invariant offset < |base| ==> !IsSpace(base[offset])
    {
      var index := WordLength(base, offset);
      NextWord(result, base, offset, offset + index);
      result := result + [base[offset..offset + index]];
      while offset + index < |base| && IsSpace(base[offset + index])
        invariant 0 < index && offset + index <= |base| && SoFar(result, base, offset + index)
      {
        NextSpace(result, base, offset + index);
        index := index + 1;
      }
      offset := offset + index;
    }
    AllWords(result, base);
  }

  lemma {:induction false} SameWordEnd(s: string, t: string, a: nat, i: nat)
    requires Trims(s, t, a) && i <= |t|
    ensures WordEnd(s, a + i) == a + WordEnd(t, i)
    decreases |t| - i
  {
    if i < |t| && !IsSpace(t[i]) {
      SameWordEnd(s, t, a, i + 1);
    }
  }

  /** Spaces hold no words. */
  lemma {:induction false} SkipSpaces(s: string, a: nat, i: nat)
    requires i <= a <= |s| && forall k :: i <= k < a ==> IsSpace(s[k])
    ensures Words(s, i) == Words(s, a)
    decreases a - i
  {
    if i < a {
      SkipSpaces(s, a, i + 1);
    }
  }

  lemma NoMoreWords(s: string)
    ensures Words(s, |s|) == []
  {
  }

  /** The words inside the trimmed part. */
  lemma {:induction false} InnerWords(s: string, t: string, a: nat, i: nat)
    requires Trims(s, t, a) && i <= |t|
    ensures Words(s, a + i) == Words(t, i)
    decreases |t| - i
  {
    hide Words, WordEnd;
    if i == |t| {
      SkipSpaces(s, |s|, a + i);
      NoMoreWords(s);
      NoMoreWords(t);
    } else if IsSpace(t[i]) {
      assert s[a + i] == t[i];
      SkipSpaces(s, a + i + 1, a + i);
      SkipSpaces(t, i + 1, i);
      InnerWords(s, t, a, i + 1);
    } else {
      var e := WordEnd(t, i);
      SameWordEnd(s, t, a, i);
      SliceSlice(s, a, |t|, i, e - i);
      FirstWord(t, i, e);
      FirstWord(s, a + i, a + e);
      InnerWords(s, t, a, e);
    }
  }

  /** The words of the trimmed string are those of the string. */
  lemma TrimKeepsWords(s: string, t: string, a: nat)
    requires Trims(s, t, a)
    ensures Words(s, 0) == Words(t, 0)
  {
    SkipSpaces(s, a, 0);
    InnerWords(s, t, a, 0);
  }
}
