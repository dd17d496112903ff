/**
 * `clean_json_output`: best-effort extraction of a JSON object from raw
 * language-model text. A ```json fence that is later closed wins; otherwise the
 * slice from the first `{` through the last `}`; otherwise the text unchanged.
 *
 * The fence search models `re.search(r"```json\s*([\s\S]*?)\s*```", text)`:
 * start positions are tried left to right, the first `\s*` is greedy and the
 * group is lazy. Backtracking the first `\s*` to a shorter run can never create
 * a match that the longest run missed, because whitespace never holds the
 * backtick that the closing fence starts with; so only the longest run is tried.
 */
module CleanJson {
  import opened Wrappers
  import opened Text

  const OpenFence: string := "```json"
  const CloseFence: string := "```"

  /** Half-open bounds `[lo, hi)` of the captured group. */
  datatype Span = Span(lo: nat, hi: nat)

  /** Greedy `\s*` starting at `i`: the first position at or after `i` that is not whitespace. */
  function SkipSpaces(s: string, i: nat): (j: nat)
    requires i <= |s|
    decreases |s| - i
    ensures i <= j <= |s| && AllSpace(s[i..j])
    ensures j < |s| ==> !IsSpace(s[j])
  {
    if i < |s| && IsSpace(s[i]) then SkipSpaces(s, i + 1) else i
  }

  /**
   * Lazy `([\s\S]*?)` followed by `\s*```: the shortest group end at or after
   * `e` after which some whitespace and then the closing fence follow.
   */
  function LazyEnd(s: string, e: nat): (r: Option<nat>)
    requires e <= |s|
    decreases |s| - e
    ensures r.Some? ==> e <= r.value <= |s| && OccursAt(s, CloseFence, SkipSpaces(s, r.value))
  {
    if OccursAt(s, CloseFence, SkipSpaces(s, e)) then Some(e)
    else if e == |s| then None
    else LazyEnd(s, e + 1)
  }

  /** The regex anchored at position `i`: the group's bounds when it matches there. */
  function MatchFenceAt(s: string, i: nat): (r: Option<Span>)
    requires i <= |s|
    ensures r.Some? ==> OccursAt(s, OpenFence, i)
    ensures r.Some? ==> i + |OpenFence| <= r.value.lo <= r.value.hi <= |s|
    ensures r.Some? ==> OccursAt(s, CloseFence, SkipSpaces(s, r.value.hi))
  {
    if !OccursAt(s, OpenFence, i) then None
    else
      var w := SkipSpaces(s, i + |OpenFence|);
      match LazyEnd(s, w)
      case None => None
      case Some(e) => Some(Span(w, e))
  }

  /** `re.search`: the match at the leftmost start position at or after `i`. */
  function SearchFence(s: string, i: nat): (r: Option<Span>)
    requires i <= |s|
    decreases |s| - i
    ensures r.Some? ==> r.value.lo <= r.value.hi <= |s|
  {
    match MatchFenceAt(s, i)
    case Some(sp) => Some(sp)
    case None => if i == |s| then None else SearchFence(s, i + 1)
  }

  /** The text holds an opening ```json fence and, later, a closing ``` fence. */
  ghost predicate HasFencePair(s: string) {
    exists p: nat, c: nat :: p + |OpenFence| <= c && OccursAt(s, OpenFence, p) && OccursAt(s, CloseFence, c)
  }

  /** The model of `clean_json_output`. */
  function CleanJsonOutput(text: string): (r: string)
    ensures |r| <= |text|
  {
    match SearchFence(text, 0)
    case Some(sp) => Trim(text[sp.lo..sp.hi])
    case None =>
      if '{' in text && '}' in text then
        var start := IndexOf(text, '{');
        var end := LastIndexOf(text, '}') + 1;
        // Python's text[start:end] is empty when start >= end.
        if start <= end then text[start..end] else ""
      else text
  }

  // ------------------------------------------------------------ fence search

  /** Start positions without an opening fence are skipped by the search. */
  lemma {:induction false} SearchSkips(s: string, i: nat, p: nat)
    requires i <= p <= |s|
    requires forall j :: i <= j < p ==> !OccursAt(s, OpenFence, j)
    decreases p - i
    ensures SearchFence(s, i) == SearchFence(s, p)
  {
    if i < p {
      SearchSkips(s, i + 1, p);
    }
  }

  /**
   * With the first closing fence at `c`, the lazy group stops at or before `c`,
   * leaving only whitespace between its end and `c`.
   */
  lemma {:induction false} LazyEndStops(s: string, from: nat, e: nat, c: nat)
    requires from <= e <= c
    requires OccursAt(s, CloseFence, c)
    requires forall j :: from <= j < c ==> !OccursAt(s, CloseFence, j)
    decreases c - e
    ensures LazyEnd(s, e).Some?
    ensures e <= LazyEnd(s, e).value <= c && AllSpace(s[LazyEnd(s, e).value..c])
  {
    var k := SkipSpaces(s, e);
    CloseFenceStartsWithBacktick(s, c);
    SkipSpacesStops(s, e, c);
    if k < c {
      LazyEndStops(s, from, e + 1, c);
    }
  }

  lemma CloseFenceStartsWithBacktick(s: string, c: nat)
    requires OccursAt(s, CloseFence, c)
    ensures c < |s| && !IsSpace(s[c])
  {
    assert s[c..c + 3][0] == s[c];
  }

  /** Greedy `\s*` never runs past a non-whitespace character. */
  lemma {:induction false} SkipSpacesStops(s: string, i: nat, c: nat)
    requires i <= c < |s| && !IsSpace(s[c])
    decreases c - i
    ensures SkipSpaces(s, i) <= c
  {
    if i < c && IsSpace(s[i]) {
      SkipSpacesStops(s, i + 1, c);
    }
  }

  /**
   * The search finds the first opening fence `p` and captures up to the first
   * closing fence `c` after it, less whitespace at either end.
   */
  lemma FenceMatch(s: string, p: nat, c: nat) returns (sp: Span)
    requires FindFrom(s, OpenFence, 0) == Some(p)
    requires FindFrom(s, CloseFence, p + |OpenFence|) == Some(c)
    ensures SearchFence(s, 0) == Some(sp)
    ensures p + |OpenFence| <= sp.lo <= sp.hi <= c
    ensures AllSpace(s[p + |OpenFence|..sp.lo]) && AllSpace(s[sp.hi..c])
  {
    SearchSkips(s, 0, p);
    var w := SkipSpaces(s, p + |OpenFence|);
    CloseFenceStartsWithBacktick(s, c);
    SkipSpacesStops(s, p + |OpenFence|, c);
    LazyEndStops(s, p + |OpenFence|, w, c);
    sp := Span(w, LazyEnd(s, w).value);
    assert MatchFenceAt(s, p) == Some(sp);
  }

  /** A match anywhere at or after `i` means an opening fence with a later closing one. */
  lemma {:induction false} SearchFenceSound(s: string, i: nat)
    requires i <= |s|
    decreases |s| - i
    ensures SearchFence(s, i).Some? ==> HasFencePair(s)
  {
    var m := MatchFenceAt(s, i);
    if m.Some? {
      var c := SkipSpaces(s, m.value.hi);
      assert i + |OpenFence| <= c && OccursAt(s, OpenFence, i) && OccursAt(s, CloseFence, c);
    } else if i < |s| {
      SearchFenceSound(s, i + 1);
    }
  }

  /** The regex matches exactly when an opening fence is followed later by a closing fence. */
  lemma FenceFoundIff(s: string)
    ensures SearchFence(s, 0).Some? <==> HasFencePair(s)
  {
    SearchFenceSound(s, 0);
    if HasFencePair(s) {
      var p': nat, c': nat :| p' + |OpenFence| <= c' && OccursAt(s, OpenFence, p') && OccursAt(s, CloseFence, c');
      assert OccursAt(s, OpenFence, p');
      var p := FindFrom(s, OpenFence, 0).value;
      assert OccursAt(s, CloseFence, c');
      var c := FindFrom(s, CloseFence, p + |OpenFence|).value;
      var _ := FenceMatch(s, p, c);
    }
  }

  lemma SliceInThree(s: string, i: nat, j: nat, k: nat, l: nat)
    requires i <= j <= k <= l <= |s|
    ensures s[i..l] == s[i..j] + s[j..k] + s[k..l]
  {
  }

  lemma SliceOfSlice(s: string, i: nat, j: nat, a: nat, b: nat)
    requires i <= j <= |s| && a <= b <= j - i
    ensures s[i..j][a..b] == s[i + a..i + b]
  {
    assert forall k | 0 <= k < b - a :: s[i..j][a..b][k] == s[i + a..i + b][k];
  }

  /** An occurrence inside a slice is an occurrence in the whole text. */
  lemma OccursInSlice(s: string, i: nat, j: nat, pat: string, p: nat)
    requires i <= j <= |s| && OccursAt(s[i..j], pat, p)
    ensures OccursAt(s, pat, i + p)
  {
    SliceOfSlice(s, i, j, p, p + |pat|);
  }

  /** A fence pair inside a slice is a fence pair of the whole text. */
  lemma FenceInSlice(s: string, i: nat, j: nat)
    requires i <= j <= |s|
    ensures HasFencePair(s[i..j]) ==> HasFencePair(s)
  {
    var t := s[i..j];
    if HasFencePair(t) {
      var p: nat, c: nat :| p + |OpenFence| <= c && OccursAt(t, OpenFence, p) && OccursAt(t, CloseFence, c);
      OccursInSlice(s, i, j, OpenFence, p);
      OccursInSlice(s, i, j, CloseFence, c);
    }
  }

  // ------------------------------------------------------------- properties

  /**
   * An opening ```json fence followed later by a closing ``` fence: the result
   * is exactly the trimmed text between the first opening fence and the next
   * closing fence.
   */
  lemma FencedContent(s: string, p: nat, c: nat)
    requires FindFrom(s, OpenFence, 0) == Some(p)
    requires FindFrom(s, CloseFence, p + |OpenFence|) == Some(c)
    ensures CleanJsonOutput(s) == Trim(s[p + |OpenFence|..c])
  {
    var sp := FenceMatch(s, p, c);
    SliceInThree(s, p + |OpenFence|, sp.lo, sp.hi, c);
    TrimIgnoresPadding(s[p + |OpenFence|..sp.lo], s[sp.lo..sp.hi], s[sp.hi..c]);
  }

  /**
   * No fence and both braces present: the slice from the first `{` through
   * the last `}`, or the empty string when that `}` comes before that `{`.
   */
  lemma BraceSlice(s: string, a: nat, b: nat)
    requires !HasFencePair(s)
    requires a < |s| && s[a] == '{' && '{' !in s[..a]
    requires b < |s| && s[b] == '}' && '}' !in s[b + 1..]
    ensures CleanJsonOutput(s) == if a < b then s[a..b + 1] else ""
  {
    FenceFoundIff(s);
    IndexOfUnique(s, '{', a);
    LastIndexOfUnique(s, '}', b);
  }

  /** No fence and a brace missing: the text comes back unchanged. */
  lemma Unchanged(s: string)
    requires !HasFencePair(s)
    requires '{' !in s || '}' !in s
    ensures CleanJsonOutput(s) == s
  {
    FenceFoundIff(s);
  }

  /** The result is always a contiguous piece of the input. */
  lemma ResultIsSubstring(s: string)
    ensures IsSubstring(CleanJsonOutput(s), s)
  {
    var r := CleanJsonOutput(s);
    match SearchFence(s, 0)
    case Some(sp) =>
      var lo, hi := TrimBounds(s[sp.lo..sp.hi]);
      SliceOfSlice(s, sp.lo, sp.hi, lo, hi);
      SliceIsSubstring(s, sp.lo + lo, sp.lo + hi);
    case None =>
      if '{' in s && '}' in s {
        var start := IndexOf(s, '{');
        var end := LastIndexOf(s, '}') + 1;
        if start <= end {
          SliceIsSubstring(s, start, end);
        } else {
          SliceIsSubstring(s, 0, 0);
        }
      } else {
        SliceIsSubstring(s, 0, |s|);
      }
  }

  lemma SliceIsSubstring(s: string, i: nat, j: nat)
    requires i <= j <= |s|
    ensures IsSubstring(s[i..j], s)
  {
  }

  /** Without a fence, the result is the input, empty, or a `{`…`}` slice. */
  lemma NoFenceShape(s: string)
    requires !HasFencePair(s)
    ensures var r := CleanJsonOutput(s);
      r == s || r == "" || (r[0] == '{' && r[|r| - 1] == '}')
  {
    FenceFoundIff(s);
    assert SearchFence(s, 0).None?;
    if '{' in s && '}' in s {
      var start, end := IndexOf(s, '{'), LastIndexOf(s, '}') + 1;
      if start < end {
        assert s[start..end][0] == s[start] == '{';
        assert s[start..end][end - start - 1] == s[end - 1] == '}';
      }
    }
  }

  /** On fence-free text, cleaning a second time changes nothing. */
  lemma IdempotentWithoutFence(s: string)
    requires !HasFencePair(s)
    ensures CleanJsonOutput(CleanJsonOutput(s)) == CleanJsonOutput(s)
  {
    FenceFoundIff(s);
    var r := CleanJsonOutput(s);
    if '{' in s && '}' in s {
      var start := IndexOf(s, '{');
      var end := LastIndexOf(s, '}') + 1;
      if start < end {
        assert r == s[start..end];
        FenceInSlice(s, start, end);
        assert r[0] == '{' && r[|r| - 1] == '}';
        BracedIsFixed(r);
      } else {
        assert r == "";
        Unchanged("");
      }
    } else {
      Unchanged(s);
    }
  }

  /** A fence-free text that starts with `{` and ends with `}` is its own result. */
  lemma BracedIsFixed(r: string)
    requires !HasFencePair(r)
    requires |r| >= 2 && r[0] == '{' && r[|r| - 1] == '}'
    ensures CleanJsonOutput(r) == r
  {
    BraceSlice(r, 0, |r| - 1);
    assert r[0..|r|] == r;
  }

  /** `"}{"`: the last `}` precedes the first `{`, so the slice is empty. */
  lemma ReversedBracesGiveEmpty()
    ensures CleanJsonOutput("}{") == ""
  {
    var s := "}{";
    assert forall p: nat :: !OccursAt(s, OpenFence, p);
    BraceSlice(s, 1, 0);
  }

  /**
   * A stripped body between a ```json fence and its closing fence, padded with
   * whitespace on both sides (a fenced `{"fields": []}` on its own lines, say),
   * comes back exactly, without the fence or the padding.
   */
  lemma FencedPaddedBody(a: string, body: string, b: string)
    requires AllSpace(a) && AllSpace(b) && '`' !in body
    requires body != [] ==> !IsSpace(body[0]) && !IsSpace(body[|body| - 1])
    ensures CleanJsonOutput(OpenFence + a + body + b + CloseFence) == body
  {
    var padded := a + body + b;
    assert '`' !in padded by {
      assert forall i :: 0 <= i < |a| ==> padded[i] == a[i] && IsSpace(a[i]);
      assert forall i :: |a| + |body| <= i < |padded| ==> padded[i] == b[i - |a| - |body|];
      assert forall i :: |a| + |body| <= i < |padded| ==> IsSpace(padded[i]);
      assert forall i :: |a| <= i < |a| + |body| ==> padded[i] == body[i - |a|];
    }
    assert OpenFence + a + body + b + CloseFence == OpenFence + padded + CloseFence;
    WholeTextFenced(padded);
    TrimOfPadded(a, body, b);
  }

  /** A text that is exactly a ```json fence around a backtick-free body yields the trimmed body. */
  lemma WholeTextFenced(body: string)
    requires '`' !in body
    ensures CleanJsonOutput(OpenFence + body + CloseFence) == Trim(body)
  {
    var s := OpenFence + body + CloseFence;
    var c := |OpenFence| + |body|;
    assert s[..7] == OpenFence;
    assert s[c..] == CloseFence;
    IsFirstOccurrence(s, OpenFence, 0, 0);
    assert forall j :: 7 <= j < c ==> s[j] == body[j - 7];
    IsFirstOccurrence(s, CloseFence, 7, c);
    assert s[7..c] == body;
    FencedContent(s, 0, c);
  }

  /** A position where `pat` occurs, with none between `from` and it, is what `FindFrom` returns. */
  lemma IsFirstOccurrence(s: string, pat: string, from: nat, c: nat)
    requires from <= c && OccursAt(s, pat, c)
    requires |pat| > 0
    requires forall j :: from <= j < c ==> s[j] != pat[0]
    ensures FindFrom(s, pat, from) == Some(c)
  {
    forall j | from <= j < c
      ensures !OccursAt(s, pat, j)
    {
      if j + |pat| <= |s| {
        assert s[j..j + |pat|][0] == s[j];
      }
    }
  }

  /** A fenced `{"fields": []}` with line breaks around it yields exactly that object. */
  lemma FencedFieldsExample()
    ensures var body := "{\"fields\": []}";
      CleanJsonOutput(OpenFence + "\n" + body + "\n" + CloseFence) == body
  {
    var body := "{\"fields\": []}";
    assert forall i :: 0 <= i < |body| ==> body[i] != '`';
    FencedPaddedBody("\n", body, "\n");
  }
}
