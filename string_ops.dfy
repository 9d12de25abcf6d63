/** The String.prototype operations the action uses, on literal text. */
module StringOps {
  import opened Wrappers

  /** `s.split(sep)[0]`: the text before the first `sep`, or all of `s` when there is none. */
  function FirstPiece(s: string, sep: char): (r: string)
    ensures r <= s && sep !in r
    ensures |r| < |s| ==> s[|r|] == sep
  {
    if s == [] || s[0] == sep then [] else [s[0]] + FirstPiece(s[1..], sep)
  }

  lemma {:induction false} FirstPieceAt(a: string, sep: char, b: string)
    requires sep !in a
    ensures FirstPiece(a + [sep] + b, sep) == a
    decreases |a|
  {
    if a == [] {
      assert (a + [sep] + b)[0] == sep;
    } else {
      FirstPieceAt(a[1..], sep, b);
      assert (a + [sep] + b)[1..] == a[1..] + [sep] + b;
      assert [a[0]] + a[1..] == a;
    }
  }

  predicate OccursAt(s: string, pat: string, i: nat)
  {
    i + |pat| <= |s| && s[i..i + |pat|] == pat
  }

  /** `s.indexOf(pat, from)`: the first occurrence at or after `from`. */
  function IndexOf(s: string, pat: string, from: nat): (r: Option<nat>)
    ensures r.Some? ==> from <= r.value && OccursAt(s, pat, r.value)
    ensures forall i :: from <= i && (r.None? || i < r.value) ==> !OccursAt(s, pat, i)
    decreases |s| - from
  {
    if from + |pat| > |s| then None
    else if s[from..from + |pat|] == pat then Some(from)
    else IndexOf(s, pat, from + 1)
  }

  /**
    `s.replace(pat, rep)` with a string pattern: the first occurrence of `pat`
    gives way to `rep`; without one, `s` is returned unchanged.
  */
  function ReplaceFirst(s: string, pat: string, rep: string): (r: string)
  {
    match IndexOf(s, pat, 0)
    case None => s
    case Some(i) => s[..i] + rep + s[i + |pat|..]
  }

  /**
    When `pat` starts with a character that `head` does not contain, the
    occurrence right after `head` is the first one, and it alone is replaced.
  */
  lemma ReplaceFirstAfter(head: string, pat: string, tail: string, rep: string)
    requires pat != [] && pat[0] !in head
    ensures ReplaceFirst(head + pat + tail, pat, rep) == head + rep + tail
  {
    var s := head + pat + tail;
    assert OccursAt(s, pat, |head|) by {
      assert s[|head|..|head| + |pat|] == pat;
    }
    forall i | 0 <= i < |head| ensures !OccursAt(s, pat, i) {
      assert s[i] == head[i];
    }
    assert IndexOf(s, pat, 0) == Some(|head|);
    assert s[..|head|] == head;
    assert s[|head| + |pat|..] == tail;
  }
}
