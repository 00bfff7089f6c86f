/**
  The two JavaScript string operations the rules rely on:
  `String.prototype.replace` with a string pattern (only the first occurrence
  is replaced) and `String.prototype.split` on a one-character separator.
 */
module Text {
  import opened Syntax

  /** `pat` occurs in `s` starting at index `i`. */
  predicate OccursAt(s: string, pat: string, i: nat) {
    i + |pat| <= |s| && s[i..i + |pat|] == pat
  }

  /** `String.prototype.indexOf(pat, from)`, with None for -1. */
  function IndexFrom(s: string, pat: string, from: nat): (r: Option<nat>)
    decreases |s| - from
    ensures r.Some? ==> from <= r.value && OccursAt(s, pat, r.value)
    ensures r.Some? ==> forall j: nat :: from <= j < r.value ==> !OccursAt(s, pat, j)
    ensures r.None? ==> forall j: nat :: from <= j ==> !OccursAt(s, pat, j)
  {
    if from + |pat| > |s| then None
    else if s[from..from + |pat|] == pat then Some(from)
    else IndexFrom(s, pat, from + 1)
  }

  /** The index of the first occurrence of `pat` in `s`. */
  function IndexOf(s: string, pat: string): (r: Option<nat>)
    ensures r.Some? ==> OccursAt(s, pat, r.value)
    ensures r.Some? ==> forall j: nat :: j < r.value ==> !OccursAt(s, pat, j)
    ensures r.None? <==> forall j: nat :: !OccursAt(s, pat, j)
  {
    IndexFrom(s, pat, 0)
  }

  /**
    `s.replace(pat, rep)` for a string pattern: the first occurrence of `pat`
    is replaced by `rep`, later ones are left alone, and `s` is returned
    unchanged when `pat` does not occur.
   */
  function ReplaceFirst(s: string, pat: string, rep: string): (r: string)
    ensures (forall j: nat :: !OccursAt(s, pat, j)) ==> r == s
    ensures forall i: nat {:trigger OccursAt(s, pat, i)} ::
      OccursAt(s, pat, i) && (forall j: nat :: j < i ==> !OccursAt(s, pat, j)) ==>
        r == s[..i] + rep + s[i + |pat|..]
  {
    match IndexOf(s, pat)
    case None => s
    case Some(i) => s[..i] + rep + s[i + |pat|..]
  }

  /**
    Replacing the first occurrence of a pattern that sits right after a
    prefix that cannot hold it keeps the prefix and everything after the
    pattern unchanged.
   */
  lemma {:induction false} ReplaceAfterPrefix(pre: string, pat: string, post: string, rep: string)
    requires forall j: nat :: j < |pre| ==> !OccursAt(pre + pat + post, pat, j)
    ensures ReplaceFirst(pre + pat + post, pat, rep) == pre + rep + post
  {
    var s := pre + pat + post;
    assert s[|pre|..|pre| + |pat|] == pat;
    assert OccursAt(s, pat, |pre|);
    assert s[..|pre|] == pre;
    assert s[|pre| + |pat|..] == post;
  }

  /** A pattern whose first character does not occur in `pre` cannot start inside `pre`. */
  lemma NotStartingInPrefix(pre: string, pat: string, post: string)
    requires |pat| > 0 && pat[0] !in pre
    ensures forall j: nat :: j < |pre| ==> !OccursAt(pre + pat + post, pat, j)
  {
    var s := pre + pat + post;
    forall j: nat | j < |pre| ensures !OccursAt(s, pat, j) {
      assert s[j] == pre[j];
      if j + |pat| <= |s| {
        assert s[j..j + |pat|][0] == s[j];
      }
    }
  }

  /** Replacing a pattern whose first character does not occur before it replaces that occurrence. */
  lemma ReplaceAfterFreePrefix(pre: string, pat: string, post: string, rep: string)
    requires |pat| > 0 && pat[0] !in pre
    ensures ReplaceFirst(pre + pat + post, pat, rep) == pre + rep + post
  {
    NotStartingInPrefix(pre, pat, post);
    ReplaceAfterPrefix(pre, pat, post, rep);
  }

  /**
    A literal's source text is its value between two quote characters.
    Replacing the value inside the raw text replaces it between the quotes
    and keeps both quotes, whatever quote character was used.
   */
  lemma {:induction false} ReplaceKeepsQuotes(q: char, value: string, rep: string)
    requires |value| > 0 && value[0] != q
    ensures ReplaceFirst([q] + value + [q], value, rep) == [q] + rep + [q]
  {
    var s := [q] + value + [q];
    forall j: nat | j < 1
      ensures !OccursAt(s, value, j)
    {
      assert s[0] == q != value[0];
    }
    ReplaceAfterPrefix([q], value, [q], rep);
  }

  /** `s.split(sep)`: the pieces between occurrences of `sep`; never empty. */
  function Split(s: string, sep: char): (parts: seq<string>)
    decreases |s|
    ensures |parts| >= 1
    ensures forall k :: 0 <= k < |parts| ==> sep !in parts[k]
  {
    if |s| == 0 then [""]
    else
      var rest := Split(s[1..], sep);
      if s[0] == sep then [""] + rest
      else [[s[0]] + rest[0]] + rest[1..]
  }

  /** `parts.join(sep)`. */
  function Join(parts: seq<string>, sep: char): string
    requires |parts| >= 1
    decreases |parts|
  {
    if |parts| == 1 then parts[0] else parts[0] + [sep] + Join(parts[1..], sep)
  }

  /** Splitting loses nothing: joining the pieces back gives the original string. */
  lemma {:induction false} JoinSplit(s: string, sep: char)
    decreases |s|
    ensures Join(Split(s, sep), sep) == s
  {
    if |s| > 0 {
      var rest := Split(s[1..], sep);
      JoinSplit(s[1..], sep);
      if s[0] == sep {
        assert Split(s, sep) == [""] + rest;
        assert ([""] + rest)[1..] == rest;
        assert s == [s[0]] + s[1..];
      } else {
        var parts := Split(s, sep);
        assert parts[0] == [s[0]] + rest[0];
        if |rest| == 1 {
          assert s == [s[0]] + s[1..];
        } else {
          assert parts[1..] == rest[1..];
          assert Join(rest, sep) == rest[0] + [sep] + Join(rest[1..], sep);
          assert s == [s[0]] + s[1..];
        }
      }
    }
  }

  /** Joining pieces that hold no separator and splitting again gives the pieces back. */
  lemma {:induction false} SplitJoin(parts: seq<string>, sep: char)
    requires |parts| >= 1
    requires forall k :: 0 <= k < |parts| ==> sep !in parts[k]
    decreases |parts|, |parts[0]|
    ensures Split(Join(parts, sep), sep) == parts
  {
    var p := parts[0];
    if |p| == 0 {
      if |parts| > 1 {
        SplitJoin(parts[1..], sep);
        var s := Join(parts, sep);
        assert s == [sep] + Join(parts[1..], sep);
        assert s[1..] == Join(parts[1..], sep);
      }
    } else {
      var parts' := [p[1..]] + parts[1..];
      forall k | 0 <= k < |parts'| ensures sep !in parts'[k] {
        if k == 0 {
          assert forall c :: c in p[1..] ==> c in p;
        } else {
          assert parts'[k] == parts[k];
        }
      }
      SplitJoin(parts', sep);
      var s := Join(parts, sep);
      if |parts| == 1 {
        assert s == p;
        assert s[1..] == Join(parts', sep);
      } else {
        assert parts'[1..] == parts[1..];
        assert s[1..] == Join(parts', sep);
      }
      assert s[0] == p[0];
      assert p == [p[0]] + p[1..];
      assert parts == [p] + parts'[1..];
    }
  }

  /** `seg` is the piece of `s` after the last `sep` (all of `s` when there is none). */
  predicate IsFinalSegment(s: string, sep: char, seg: string) {
    && |seg| <= |s|
    && s[|s| - |seg|..] == seg
    && sep !in seg
    && (|seg| == |s| || s[|s| - |seg| - 1] == sep)
  }

  /** `seg` is the piece of `s` before the first `sep` (all of `s` when there is none). */
  predicate IsLeadingSegment(s: string, sep: char, seg: string) {
    && |seg| <= |s|
    && s[..|seg|] == seg
    && sep !in seg
    && (|seg| == |s| || s[|seg|] == sep)
  }

  lemma FinalSegmentUnique(s: string, sep: char, a: string, b: string)
    requires IsFinalSegment(s, sep, a) && IsFinalSegment(s, sep, b)
    ensures a == b
  {
  }

  lemma LeadingSegmentUnique(s: string, sep: char, a: string, b: string)
    requires IsLeadingSegment(s, sep, a) && IsLeadingSegment(s, sep, b)
    ensures a == b
  {
  }

  /** The first piece of a split is the text before the first separator. */
  lemma {:induction false} SplitFirstIsLeading(s: string, sep: char)
    decreases |s|
    ensures IsLeadingSegment(s, sep, Split(s, sep)[0])
  {
    if |s| > 0 && s[0] != sep {
      var rest := Split(s[1..], sep);
      SplitFirstIsLeading(s[1..], sep);
      var f := [s[0]] + rest[0];
      assert Split(s, sep)[0] == f;
      assert s[..|f|] == [s[0]] + s[1..][..|rest[0]|];
    }
  }

  /** Joining more than one piece puts the last piece after the last separator. */
  lemma {:induction false} JoinLast(parts: seq<string>, sep: char)
    requires |parts| >= 2
    decreases |parts|
    ensures Join(parts, sep) == Join(parts[..|parts| - 1], sep) + [sep] + parts[|parts| - 1]
  {
    if |parts| > 2 {
      JoinLast(parts[1..], sep);
      assert parts[1..][..|parts| - 2] == parts[..|parts| - 1][1..];
    }
  }

  /** The last piece of a split is the text after the last separator. */
  lemma SplitLastIsFinal(s: string, sep: char)
    ensures IsFinalSegment(s, sep, Split(s, sep)[|Split(s, sep)| - 1])
  {
    var parts := Split(s, sep);
    var last := parts[|parts| - 1];
    JoinSplit(s, sep);
    if |parts| >= 2 {
      JoinLast(parts, sep);
    }
  }

  /** There is more than one piece exactly when the separator occurs. */
  lemma {:induction false} SplitMany(s: string, sep: char)
    decreases |s|
    ensures |Split(s, sep)| >= 2 <==> sep in s
  {
    if |s| > 0 {
      SplitMany(s[1..], sep);
      assert s == [s[0]] + s[1..];
    }
  }

  /** Splitting text with a separator in the middle splits each side. */
  lemma SplitAround(a: string, sep: char, b: string)
    ensures Split(a + [sep] + b, sep) == Split(a, sep) + Split(b, sep)
  {
    var pa, pb := Split(a, sep), Split(b, sep);
    JoinSplit(a, sep);
    JoinSplit(b, sep);
    JoinConcat(pa, pb, sep);
    forall k | 0 <= k < |pa + pb| ensures sep !in (pa + pb)[k] {
      if k < |pa| { assert (pa + pb)[k] == pa[k]; } else { assert (pa + pb)[k] == pb[k - |pa|]; }
    }
    SplitJoin(pa + pb, sep);
  }

  lemma {:induction false} JoinConcat(p: seq<string>, q: seq<string>, sep: char)
    requires |p| >= 1 && |q| >= 1
    decreases |p|
    ensures Join(p + q, sep) == Join(p, sep) + [sep] + Join(q, sep)
  {
    if |p| > 1 {
      JoinConcat(p[1..], q, sep);
      assert (p + q)[1..] == p[1..] + q;
    }
  }
}
