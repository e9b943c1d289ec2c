/** The embedded-JSON extractor of the log-parsing client
    (`ClaudeClient._extract_json_from_response`): it prefers the content of the
    first ```` ```json ```` fenced block when that content parses, then falls back
    to a bracket-stack scan of the whole reply, and returns `"{}"` when both fail.

    The JSON parser (`json.loads`) is not modelled: every operation takes it as
    a parameter `loads`, the predicate "this text parses as JSON". */
module JsonExtractor {
  import opened Wrappers
  import opened Text

  /** The opening marker of the fenced block: three backticks, `json`, a newline. */
  const FenceOpen: string := "```json\n"
  /** The closing marker of the fenced block. */
  const FenceClose: string := "```"
  /** What the extractor returns when it finds nothing that parses. */
  const EmptyObject: string := "{}"

  // ---------------------------------------------------------------------------
  // Stage 1: the fenced block
  // ---------------------------------------------------------------------------

  /** The first index at or after `from` where `pat` occurs in `text`. */
  function FindFrom(text: string, pat: string, from: nat): (r: Option<nat>)
    decreases |text| - from
    ensures r.Some? ==> from <= r.value && OccursAt(text, r.value, pat)
    ensures r.Some? ==> forall k :: from <= k < r.value ==> !OccursAt(text, k, pat)
    ensures r.None? ==> forall k :: from <= k ==> !OccursAt(text, k, pat)
  {
    if from + |pat| > |text| then None
    else if text[from..from + |pat|] == pat then Some(from)
    else FindFrom(text, pat, from + 1)
  }

  /** The bounds `(lo, hi)` of group 1 of the first match of the pattern
      ```` ```json\n(.*?)``` ```` with `.` matching newlines: the text after the
      first opening marker up to the first closing marker after it. There is a
      match exactly when some opening marker is followed by a closing marker. */
  function FindFence(text: string): (r: Option<(nat, nat)>)
    ensures r.Some? ==> |FenceOpen| <= r.value.0 <= r.value.1 <= |text|
    ensures r.Some? ==> OccursAt(text, r.value.0 - |FenceOpen|, FenceOpen) && OccursAt(text, r.value.1, FenceClose)
    ensures r.Some? ==> forall k :: 0 <= k < r.value.0 - |FenceOpen| ==> !OccursAt(text, k, FenceOpen)
    ensures r.Some? ==> forall k :: r.value.0 <= k < r.value.1 ==> !OccursAt(text, k, FenceClose)
    ensures r.None? <==> forall p, q :: OccursAt(text, p, FenceOpen) && OccursAt(text, q, FenceClose) ==> q < p + |FenceOpen|
  {
    match FindFrom(text, FenceOpen, 0)
    case None => None
    case Some(p) =>
      match FindFrom(text, FenceClose, p + |FenceOpen|)
      case None => None
      case Some(q) => Some((p + |FenceOpen|, q))
  }

  /** The stripped content of the fenced block, if there is one. */
  function FencedContent(text: string): Option<string> {
    match FindFence(text)
    case None => None
    case Some((lo, hi)) => Some(Strip(text[lo..hi]))
  }

  /** Stage 1 succeeds: there is a fenced block and its stripped content parses. */
  predicate FenceAccepted(text: string, loads: string -> bool) {
    var f := FencedContent(text);
    f.Some? && loads(f.value)
  }

  // ---------------------------------------------------------------------------
  // Stage 2: the bracket-stack scan
  // ---------------------------------------------------------------------------

  predicate IsOpener(c: char) { c == '{' || c == '[' }
  predicate IsCloser(c: char) { c == '}' || c == ']' }

  /** The opener that a closer matches. */
  function OpenerOf(closer: char): char { if closer == '}' then '{' else '[' }

  /** The scan as a state machine: nothing open yet (or reset); a candidate
      started at `start` with the given stack of open brackets; or a candidate
      `[start, end)` captured, after which the scan has stopped. */
  datatype ScanState = Idle | Open(start: nat, stack: seq<char>) | Closed(start: nat, end: nat)

  /** The state of the scan is consistent after `n` characters. */
  predicate ScanWf(st: ScanState, n: nat) {
    match st
    case Idle => true
    case Open(s, stack) => s < n && stack != []
    case Closed(s, e) => s < e <= n
  }

  /** One character of the scan, at index `i`. An opener starts a candidate
      when nothing is open and is pushed; a closer pops, and resets the scan when
      the popped opener does not match, or captures the candidate when the stack
      has become empty; a closer with nothing open, and any other character, is
      ignored. */
  function Step(st: ScanState, i: nat, c: char): ScanState
    requires ScanWf(st, i)
  {
    match st
    case Closed(_, _) => st
    case Idle => if IsOpener(c) then Open(i, [c]) else Idle
    case Open(s, stack) =>
      if IsOpener(c) then Open(s, stack + [c])
      else if IsCloser(c) then
        if stack[|stack| - 1] != OpenerOf(c) then Idle
        else if |stack| == 1 then Closed(s, i + 1)
        else Open(s, stack[..|stack| - 1])
      else st
  }

  /** The state of the scan after the first `n` characters of `text`. */
  function RunTo(text: string, n: nat): (st: ScanState)
    requires n <= |text|
    ensures ScanWf(st, n)
  {
    if n == 0 then Idle else Step(RunTo(text, n - 1), n - 1, text[n - 1])
  }

  /** The stack of brackets left open by `text[lo..hi]` when every closer must
      match the innermost open bracket; `None` when one does not (or closes
      nothing). Other characters are not looked at, so a bracket inside a JSON
      string literal counts like any other. */
  function Nesting(text: string, lo: nat, hi: nat): Option<seq<char>>
    requires lo <= hi <= |text|
    decreases hi
  {
    if hi == lo then Some([])
    else
      match Nesting(text, lo, hi - 1)
      case None => None
      case Some(stack) =>
        var c := text[hi - 1];
        if IsOpener(c) then Some(stack + [c])
        else if IsCloser(c) then
          if stack != [] && stack[|stack| - 1] == OpenerOf(c) then Some(stack[..|stack| - 1]) else None
        else Some(stack)
  }

  /** `w` is bracket-balanced. */
  predicate Balanced(w: string) {
    Nesting(w, 0, |w|) == Some([])
  }

  /** `text[s..e]` starts with an opener, is balanced, and no shorter
      non-empty prefix of it is: `e` is the first point where everything opened
      at `s` has been closed again. */
  predicate FirstBalancedSpan(text: string, s: nat, e: nat) {
    && s < e <= |text|
    && IsOpener(text[s])
    && Nesting(text, s, e) == Some([])
    && forall k :: s < k < e ==> Nesting(text, s, k) != Some([])
  }

  /** The scan, as written in the source: a loop over the characters that
      keeps the list `stack` and the indices `jsonStart` and `jsonEnd` (`-1` for
      none). It stops at the first closer that empties the stack. */
  method ScanForSpan(text: string) returns (jsonStart: int, jsonEnd: int)
    ensures jsonEnd != -1 <==> RunTo(text, |text|).Closed?
    ensures jsonEnd != -1 ==> 0 <= jsonStart < jsonEnd <= |text|
    ensures jsonEnd != -1 ==> jsonStart == RunTo(text, |text|).start && jsonEnd == RunTo(text, |text|).end
    ensures jsonEnd != -1 ==> RunTo(text, jsonStart) == Idle && FirstBalancedSpan(text, jsonStart, jsonEnd)
    ensures jsonEnd == -1 ==> (jsonStart == -1 <==> RunTo(text, |text|) == Idle)
  {
    var stack: seq<char> := [];
    jsonStart, jsonEnd := -1, -1;
    for i := 0 to |text|
      invariant jsonEnd == -1
      invariant jsonStart == -1 <==> stack == []
      invariant RunTo(text, i) == if stack == [] then Idle else Open(jsonStart, stack)
    {
      var c := text[i];
      if c == '{' || c == '[' {
        if jsonStart == -1 {
          jsonStart := i;
        }
        stack := stack + [c];
      } else if c == '}' || c == ']' {
        if stack != [] {
          var lastOpen := stack[|stack| - 1];
          stack := stack[..|stack| - 1];
          if (c == '}' && lastOpen != '{') || (c == ']' && lastOpen != '[') {
            // reset on a mismatched closer
            stack := [];
            jsonStart := -1;
            continue;
          }
        } else {
          // a closer with nothing open is ignored; the source's
          // `elif json_start != -1` never holds here
          assert jsonStart == -1;
        }
      }
      if jsonStart != -1 && stack == [] && (c == '}' || c == ']') {
        jsonEnd := i + 1;
        ClosedStaysClosed(text, i + 1, |text|);
        break;
      }
    }
    if jsonEnd != -1 {
      ClosedIsFirstBalanced(text, |text|);
    }
  }

  // ---------------------------------------------------------------------------
  // The whole extractor
  // ---------------------------------------------------------------------------

  /** What the extractor returns: the stripped fenced content when it parses;
      otherwise the span captured by the scan of the WHOLE text when it parses;
      otherwise `"{}"`. Only one candidate span is ever tried. */
  function Extracted(text: string, loads: string -> bool): string {
    if FenceAccepted(text, loads) then FencedContent(text).value
    else
      var st := RunTo(text, |text|);
      if st.Closed? && loads(text[st.start..st.end]) then text[st.start..st.end]
      else EmptyObject
  }

  /** `_extract_json_from_response`: the fence search, then the scan method,
      then the single validation of the captured span, then the fallback. */
  method ExtractJsonFromResponse(text: string, loads: string -> bool) returns (r: string)
    ensures r == Extracted(text, loads)
    ensures r == EmptyObject || (loads(r) && exists i :: OccursAt(text, i, r))
  {
    ExtractedIsPartOfText(text, loads);
    var fence := FindFence(text);
    if fence.Some? {
      var jsonStr := Strip(text[fence.value.0..fence.value.1]);
      assert FencedContent(text) == Some(jsonStr);
      if loads(jsonStr) {
        return jsonStr;
      }
    }
    assert !FenceAccepted(text, loads);
    var jsonStart, jsonEnd := ScanForSpan(text);
    if jsonStart != -1 && jsonEnd != -1 {
      var extractedText := text[jsonStart..jsonEnd];
      if loads(extractedText) {
        return extractedText;
      }
    }
    return EmptyObject;
  }

  // ---------------------------------------------------------------------------
  // Lemmas about the scan
  // ---------------------------------------------------------------------------

  lemma FencedContentOccurs(text: string)
    requires FencedContent(text).Some?
    ensures exists i :: OccursAt(text, i, FencedContent(text).value)
  {
    var fence := FindFence(text).value;
    var f := Strip(text[fence.0..fence.1]);
    var j :| OccursAt(text[fence.0..fence.1], j, f);
    OccursInSlice(text, fence.0, fence.1, j, f);
  }

  /** Once captured, the candidate never changes. */
  lemma {:induction false} ClosedStaysClosed(text: string, m: nat, n: nat)
    requires m <= n <= |text| && RunTo(text, m).Closed?
    ensures RunTo(text, n) == RunTo(text, m)
    decreases n - m
  {
    if m < n {
      ClosedStaysClosed(text, m, n - 1);
    }
  }

  /** While a candidate is open, the scan has not been reset since it started:
      the scan was idle just before the start, the stack is exactly the nesting
      of the text from the start, and no prefix of that text is balanced. */
  predicate OpenIsNestingAt(text: string, n: nat)
    requires n <= |text| && RunTo(text, n).Open?
  {
    var st := RunTo(text, n);
    && RunTo(text, st.start) == Idle && IsOpener(text[st.start])
    && Nesting(text, st.start, n) == Some(st.stack)
    && forall k :: st.start < k <= n ==> Nesting(text, st.start, k).Some? && Nesting(text, st.start, k) != Some([])
  }

  lemma {:induction false} OpenIsNesting(text: string, n: nat)
    requires n <= |text| && RunTo(text, n).Open?
    ensures OpenIsNestingAt(text, n)
  {
    if RunTo(text, n - 1).Open? {
      OpenIsNesting(text, n - 1);
      OpenContinues(text, n);
    } else {
      var c := text[n - 1];
      assert RunTo(text, n - 1) == Idle && IsOpener(c);
      assert RunTo(text, n) == Open(n - 1, [c]);
      NestingOfOpener(text, n - 1);
    }
  }

  /** A character that keeps a candidate open extends its nesting by one step. */
  lemma OpenContinues(text: string, n: nat)
    requires 0 < n <= |text| && RunTo(text, n - 1).Open? && RunTo(text, n).Open?
    requires OpenIsNestingAt(text, n - 1)
    ensures OpenIsNestingAt(text, n)
  {
    var prev := RunTo(text, n - 1);
    var c := text[n - 1];
    var stack := prev.stack;
    assert Nesting(text, prev.start, n - 1) == Some(stack);
    if IsOpener(c) {
      assert Nesting(text, prev.start, n) == Some(stack + [c]);
    } else if IsCloser(c) {
      assert stack[|stack| - 1] == OpenerOf(c) && |stack| > 1;
      assert Nesting(text, prev.start, n) == Some(stack[..|stack| - 1]);
    } else {
      assert Nesting(text, prev.start, n) == Some(stack);
    }
  }

  /** The captured span is the first balanced span starting where the scan was
      last idle. */
  lemma {:induction false} ClosedIsFirstBalanced(text: string, n: nat)
    requires n <= |text| && RunTo(text, n).Closed?
    ensures var st := RunTo(text, n);
      && RunTo(text, st.start) == Idle && FirstBalancedSpan(text, st.start, st.end)
      && IsCloser(text[st.end - 1])
    decreases n
  {
    if RunTo(text, n - 1).Closed? {
      ClosedIsFirstBalanced(text, n - 1);
    } else {
      ClosingStep(text, n);
    }
  }

  /** The closer that captures a candidate ends its first balanced span. */
  lemma ClosingStep(text: string, n: nat)
    requires 0 < n <= |text| && !RunTo(text, n - 1).Closed? && RunTo(text, n).Closed?
    ensures var st := RunTo(text, n);
      && st == Closed(RunTo(text, n - 1).start, n)
      && RunTo(text, st.start) == Idle && FirstBalancedSpan(text, st.start, n)
      && IsCloser(text[n - 1])
  {
    var prev := RunTo(text, n - 1);
    assert prev.Open?;
    OpenIsNesting(text, n - 1);
    var c := text[n - 1];
    assert IsCloser(c) && prev.stack == [OpenerOf(c)];
    assert Nesting(text, prev.start, n) == Some([]);
  }

  /** Conversely, a first balanced span that starts where the scan is idle is
      captured. With `ClosedIsFirstBalanced` this characterises the scan. */
  lemma {:induction false} FirstBalancedIsClosed(text: string, s: nat, e: nat)
    requires s <= |text| && RunTo(text, s) == Idle && FirstBalancedSpan(text, s, e)
    ensures RunTo(text, |text|) == Closed(s, e)
  {
    ScanInSpan(text, s, e, e);
    ClosedStaysClosed(text, e, |text|);
  }

  /** The scan of a first balanced span that starts where the scan is idle:
      open, with the nesting as its stack, until the span's end, then closed. */
  lemma {:induction false} ScanInSpan(text: string, s: nat, e: nat, i: nat)
    requires s <= |text| && RunTo(text, s) == Idle && FirstBalancedSpan(text, s, e) && s < i <= e
    ensures Nesting(text, s, i).Some?
    ensures i < e ==> RunTo(text, i) == Open(s, Nesting(text, s, i).value)
    ensures i == e ==> RunTo(text, i) == Closed(s, e)
    decreases i
  {
    if i == s + 1 {
      NestingOfOpener(text, s);
      assert RunTo(text, i) == Open(s, [text[s]]);
      assert Nesting(text, s, i) == Some([text[s]]) != Some([]);
    } else {
      var j := i - 1;
      ScanInSpan(text, s, e, j);
      SpanStep(text, s, j, e);
      assert j + 1 == i;
    }
  }

  /** Inside a first balanced span the scan stays open, and it closes at its end. */
  lemma SpanStep(text: string, s: nat, i: nat, e: nat)
    requires FirstBalancedSpan(text, s, e) && s < i < e
    requires Nesting(text, s, i).Some? && RunTo(text, i) == Open(s, Nesting(text, s, i).value)
    ensures Nesting(text, s, i + 1).Some?
    ensures i + 1 < e ==> RunTo(text, i + 1) == Open(s, Nesting(text, s, i + 1).value)
    ensures i + 1 == e ==> RunTo(text, i + 1) == Closed(s, e)
  {
    NestingPrefix(text, s, i + 1, e);
    OpenStep(text, s, i);
    assert i + 1 < e ==> Nesting(text, s, i + 1) != Some([]);
  }

  lemma NestingOfOpener(text: string, i: nat)
    requires i < |text| && IsOpener(text[i])
    ensures Nesting(text, i, i + 1) == Some([text[i]])
  {
    assert Nesting(text, i, i) == Some([]);
    assert [] + [text[i]] == [text[i]];
  }

  /** One step of the scan while a candidate is open follows the nesting. */
  lemma OpenStep(text: string, s: nat, i: nat)
    requires s < i < |text| && Nesting(text, s, i).Some? && Nesting(text, s, i + 1).Some?
    requires RunTo(text, i) == Open(s, Nesting(text, s, i).value)
    ensures Nesting(text, s, i + 1) != Some([]) ==> RunTo(text, i + 1) == Open(s, Nesting(text, s, i + 1).value)
    ensures Nesting(text, s, i + 1) == Some([]) ==> RunTo(text, i + 1) == Closed(s, i + 1)
  {
    var stack := Nesting(text, s, i).value;
    var c := text[i];
    assert RunTo(text, i + 1) == Step(Open(s, stack), i, c);
    if IsOpener(c) {
      assert Nesting(text, s, i + 1) == Some(stack + [c]);
    } else if IsCloser(c) {
      assert stack != [] && stack[|stack| - 1] == OpenerOf(c);
      assert Nesting(text, s, i + 1) == Some(stack[..|stack| - 1]);
    } else {
      assert Nesting(text, s, i + 1) == Some(stack);
    }
  }

  /** A prefix of a span with a nesting has a nesting: a mismatch is never undone. */
  lemma {:induction false} NestingPrefix(text: string, lo: nat, k: nat, hi: nat)
    requires lo <= k <= hi <= |text| && Nesting(text, lo, hi).Some?
    ensures Nesting(text, lo, k).Some?
    decreases hi
  {
    if k < hi {
      NestingPrefix(text, lo, k, hi - 1);
    }
  }

  /** The nesting of a span does not depend on the text around it. */
  lemma {:induction false} NestingSlice(text: string, lo: nat, hi: nat)
    requires lo <= hi <= |text|
    ensures Nesting(text[lo..hi], 0, hi - lo) == Nesting(text, lo, hi)
    decreases hi
  {
    if lo < hi {
      NestingSliceTo(text, lo, hi - 1, hi);
      assert text[lo..hi][hi - 1 - lo] == text[hi - 1];
    }
  }

  lemma {:induction false} NestingSliceTo(text: string, lo: nat, k: nat, hi: nat)
    requires lo <= k <= hi <= |text|
    ensures Nesting(text[lo..hi], 0, k - lo) == Nesting(text, lo, k)
    decreases k
  {
    if lo < k {
      NestingSliceTo(text, lo, k - 1, hi);
      assert text[lo..hi][k - 1 - lo] == text[k - 1];
    }
  }

  /** Text without an opener leaves the scan idle: closers with nothing open
      are ignored. */
  lemma {:induction false} NoOpenerIdle(text: string, n: nat)
    requires n <= |text| && forall k :: 0 <= k < n ==> !IsOpener(text[k])
    ensures RunTo(text, n) == Idle
  {
    if n > 0 {
      NoOpenerIdle(text, n - 1);
    }
  }

  // ---------------------------------------------------------------------------
  // Lemmas about the extractor
  // ---------------------------------------------------------------------------

  /** The result is `"{}"` or a part of the text, taken verbatim, that parses. */
  lemma ExtractedIsPartOfText(text: string, loads: string -> bool)
    ensures var r := Extracted(text, loads);
      r == EmptyObject || (loads(r) && exists i :: OccursAt(text, i, r))
  {
    if FenceAccepted(text, loads) {
      FencedContentOccurs(text);
    } else {
      var st := RunTo(text, |text|);
      if st.Closed? {
        assert OccursAt(text, st.start, text[st.start..st.end]);
      }
    }
  }

  /** The result always parses, given only that `"{}"` does. */
  lemma ExtractedParses(text: string, loads: string -> bool)
    requires loads(EmptyObject)
    ensures loads(Extracted(text, loads))
  {
    ExtractedIsPartOfText(text, loads);
  }

  /** Stage 1 wins whenever it succeeds. */
  lemma ExtractedPrefersFence(text: string, loads: string -> bool)
    requires FenceAccepted(text, loads)
    ensures Extracted(text, loads) == FencedContent(text).value
  {
  }

  /** Otherwise the result is `"{}"` or the first balanced span that starts
      where the scan of the whole text is idle. */
  lemma ExtractedFromScan(text: string, loads: string -> bool)
    requires !FenceAccepted(text, loads) && Extracted(text, loads) != EmptyObject
    ensures exists s: nat, e: nat | s < e <= |text| ::
      RunTo(text, s) == Idle && FirstBalancedSpan(text, s, e) && Extracted(text, loads) == text[s..e]
  {
    var st := RunTo(text, |text|);
    ClosedIsFirstBalanced(text, |text|);
    assert RunTo(text, st.start) == Idle && FirstBalancedSpan(text, st.start, st.end);
  }

  /** The returned span, when the scan supplies it, is bracket-balanced as a
      string on its own, begins with an opener and ends with a closer. */
  lemma CapturedSpanIsBalanced(text: string)
    requires RunTo(text, |text|).Closed?
    ensures var st := RunTo(text, |text|); var w := text[st.start..st.end];
      |w| >= 2 && IsOpener(w[0]) && IsCloser(w[|w| - 1]) && Balanced(w)
  {
    var st := RunTo(text, |text|);
    var s, e := st.start, st.end;
    ClosedIsFirstBalanced(text, |text|);
    NestingSlice(text, s, e);
    NestingOfOpener(text, s);
  }

  /** A text without a backtick has no fenced block. */
  lemma NoBacktickNoFence(text: string)
    requires forall k :: 0 <= k < |text| ==> text[k] != '`'
    ensures FindFence(text) == None
  {
    forall p ensures !OccursAt(text, p, FenceOpen) {
      if 0 <= p && p + |FenceOpen| <= |text| {
        assert text[p..p + |FenceOpen|][0] == text[p] != '`';
      }
    }
  }

  /** Empty input falls through both stages. */
  lemma ExtractEmpty(loads: string -> bool)
    ensures Extracted("", loads) == EmptyObject
  {
    NoBacktickNoFence("");
  }

  /** The fallback is a fixed point: `extract("{}") == "{}"`, whatever the parser says. */
  lemma ExtractEmptyObject(loads: string -> bool)
    ensures Extracted(EmptyObject, loads) == EmptyObject
  {
    NoBacktickNoFence(EmptyObject);
    assert RunTo(EmptyObject, 1) == Open(0, ['{']);
    assert RunTo(EmptyObject, 2) == Closed(0, 2);
    assert EmptyObject[0..2] == EmptyObject;
  }

  /** Text without any bracket yields `"{}"`. */
  lemma ExtractNoBrackets(text: string, loads: string -> bool)
    requires forall k :: 0 <= k < |text| ==> text[k] != '`' && !IsOpener(text[k])
    ensures Extracted(text, loads) == EmptyObject
  {
    NoBacktickNoFence(text);
    NoOpenerIdle(text, |text|);
  }

  /** The returned span, when the scan supplies it, is bracket-balanced on its
      own, begins with an opener and ends with a closer. */
  lemma ExtractedSpanIsBalanced(text: string, loads: string -> bool)
    requires !FenceAccepted(text, loads) && Extracted(text, loads) != EmptyObject
    ensures var r := Extracted(text, loads);
      |r| >= 2 && IsOpener(r[0]) && IsCloser(r[|r| - 1]) && Balanced(r)
  {
    CapturedSpanIsBalanced(text);
  }

  /** The fenced block is located by its first opening marker and the first
      closing marker after it. */
  lemma FenceAt(text: string, p: nat, q: nat)
    requires OccursAt(text, p, FenceOpen) && OccursAt(text, q, FenceClose) && p + |FenceOpen| <= q
    requires forall k :: 0 <= k < p ==> text[k] != '`'
    requires forall k :: p + |FenceOpen| <= k < q ==> text[k] != '`'
    ensures FindFence(text) == Some((p + |FenceOpen|, q))
  {
    forall k | 0 <= k < p ensures !OccursAt(text, k, FenceOpen) {
      NoMarkerAt(text, k, FenceOpen);
    }
    FindFromAt(text, FenceOpen, 0, p);
    forall k | p + |FenceOpen| <= k < q ensures !OccursAt(text, k, FenceClose) {
      NoMarkerAt(text, k, FenceClose);
    }
    FindFromAt(text, FenceClose, p + |FenceOpen|, q);
  }

  /** A marker starting with a backtick does not occur where there is none. */
  lemma NoMarkerAt(text: string, k: nat, pat: string)
    requires pat != [] && pat[0] == '`' && (k < |text| ==> text[k] != '`')
    ensures !OccursAt(text, k, pat)
  {
    if k + |pat| <= |text| {
      assert text[k..k + |pat|][0] == text[k];
    }
  }

  /** The search finds the first occurrence at or after `from`. */
  lemma FindFromAt(text: string, pat: string, from: nat, p: nat)
    requires from <= p && OccursAt(text, p, pat)
    requires forall k :: from <= k < p ==> !OccursAt(text, k, pat)
    ensures FindFrom(text, pat, from) == Some(p)
  {
  }

  /** Without a fence, the result is decided by the first balanced span that
      starts where the scan is idle: that span when it parses, else `"{}"`. */
  lemma ExtractFirstSpan(text: string, s: nat, e: nat, loads: string -> bool)
    requires forall k :: 0 <= k < |text| ==> text[k] != '`'
    requires s <= |text| && RunTo(text, s) == Idle && FirstBalancedSpan(text, s, e)
    ensures Extracted(text, loads) == if loads(text[s..e]) then text[s..e] else EmptyObject
  {
    NoBacktickNoFence(text);
    ScanDecides(text, s, e, loads);
  }

  /** When the fenced block is missing or rejected, the first balanced span
      that starts where the scan is idle decides the result. */
  lemma ScanDecides(text: string, s: nat, e: nat, loads: string -> bool)
    requires !FenceAccepted(text, loads)
    requires s <= |text| && RunTo(text, s) == Idle && FirstBalancedSpan(text, s, e)
    ensures Extracted(text, loads) == if loads(text[s..e]) then text[s..e] else EmptyObject
  {
    FirstBalancedIsClosed(text, s, e);
  }

  /** Closers before the first opener do not poison the scan: after any text
      without an opener (such as `oops}`), the first balanced span of the rest
      is what is tried. */
  lemma ExtractAfterStrayCloser(before: string, rest: string, e: nat, loads: string -> bool)
    requires forall k :: 0 <= k < |before| ==> before[k] != '`' && !IsOpener(before[k])
    requires forall k :: 0 <= k < |rest| ==> rest[k] != '`'
    requires FirstBalancedSpan(rest, 0, e)
    ensures Extracted(before + rest, loads) == if loads(rest[..e]) then rest[..e] else EmptyObject
  {
    var text, b := before + rest, |before|;
    assert FindFence(text) == None by {
      NoBacktickConcat(before, rest);
      NoBacktickNoFence(text);
    }
    IdleAfterNoOpener(before, rest);
    SpanAfterPrefix(before, rest, e);
    ScanDecides(text, b, b + e, loads);
    SliceAfterPrefix(before, rest, e);
  }

  /** A mismatched closer throws the candidate away: after an opener and a
      closer of the other kind (such as `{]`), the scan starts afresh and the
      first balanced span of the rest is what is tried. */
  lemma ExtractAfterMismatch(o: char, c: char, rest: string, e: nat, loads: string -> bool)
    requires IsOpener(o) && IsCloser(c) && OpenerOf(c) != o
    requires forall k :: 0 <= k < |rest| ==> rest[k] != '`'
    requires FirstBalancedSpan(rest, 0, e)
    ensures Extracted([o, c] + rest, loads) == if loads(rest[..e]) then rest[..e] else EmptyObject
  {
    var text := [o, c] + rest;
    assert FindFence(text) == None by {
      NoBacktickConcat([o, c], rest);
      NoBacktickNoFence(text);
    }
    assert RunTo(text, 2) == Idle by {
      assert text[0] == o && text[1] == c;
      assert RunTo(text, 1) == Open(0, [o]);
    }
    SpanAfterPrefix([o, c], rest, e);
    ScanDecides(text, 2, 2 + e, loads);
    SliceAfterPrefix([o, c], rest, e);
  }

  /** The reset throws away the whole candidate, not just the popped opener:
      after any prefix that leaves a candidate open (such as `{[`), a closer
      that does not match the innermost open bracket (such as `}`) drops every
      open bracket and the start, and the first balanced span of the rest is
      what is tried. */
  lemma ExtractAfterDeepMismatch(p: string, c: char, rest: string, e: nat, loads: string -> bool)
    requires RunTo(p, |p|).Open? && IsCloser(c)
    requires var stack := RunTo(p, |p|).stack; stack[|stack| - 1] != OpenerOf(c)
    requires forall k :: 0 <= k < |p| ==> p[k] != '`'
    requires forall k :: 0 <= k < |rest| ==> rest[k] != '`'
    requires FirstBalancedSpan(rest, 0, e)
    ensures Extracted(p + [c] + rest, loads) == if loads(rest[..e]) then rest[..e] else EmptyObject
  {
    var before := p + [c];
    var text := before + rest;
    assert FindFence(text) == None by {
      NoBacktickConcat(p, [c]);
      NoBacktickConcat(before, rest);
      NoBacktickNoFence(text);
    }
    MismatchResets(p, c, rest);
    SpanAfterPrefix(before, rest, e);
    ScanDecides(text, |before|, |before| + e, loads);
    SliceAfterPrefix(before, rest, e);
  }

  /** A mismatched closer after an open candidate leaves the scan idle. */
  lemma MismatchResets(p: string, c: char, rest: string)
    requires RunTo(p, |p|).Open? && IsCloser(c)
    requires var stack := RunTo(p, |p|).stack; stack[|stack| - 1] != OpenerOf(c)
    ensures RunTo(p + [c] + rest, |p| + 1) == Idle
  {
    var text := p + [c] + rest;
    RunToPrefix(p, [c] + rest, |p|);
    assert p + ([c] + rest) == text;
    assert text[|p|] == c;
  }

  /** The scan of a prefix does not look past it. */
  lemma {:induction false} RunToPrefix(a: string, b: string, n: nat)
    requires n <= |a|
    ensures RunTo(a + b, n) == RunTo(a, n)
  {
    if n > 0 {
      RunToPrefix(a, b, n - 1);
      assert (a + b)[n - 1] == a[n - 1];
    }
  }

  /** `{[` leaves a candidate open with `[` innermost, so `}` after it resets. */
  lemma OpenBraceBracket()
    ensures RunTo("{[", 2) == Open(0, "{[")
  {
    assert RunTo("{[", 1) == Open(0, "{");
  }

  lemma SliceAfterPrefix(before: string, rest: string, e: nat)
    requires e <= |rest|
    ensures (before + rest)[|before|..|before| + e] == rest[..e]
  {
  }

  lemma NoBacktickConcat(a: string, b: string)
    requires forall k :: 0 <= k < |a| ==> a[k] != '`'
    requires forall k :: 0 <= k < |b| ==> b[k] != '`'
    ensures forall k :: 0 <= k < |a + b| ==> (a + b)[k] != '`'
  {
  }

  /** A prefix without an opener leaves the scan idle. */
  lemma IdleAfterNoOpener(before: string, rest: string)
    requires forall k :: 0 <= k < |before| ==> !IsOpener(before[k])
    ensures RunTo(before + rest, |before|) == Idle
  {
    var text := before + rest;
    forall k | 0 <= k < |before| ensures !IsOpener(text[k]) {
      assert text[k] == before[k];
    }
    NoOpenerIdle(text, |before|);
  }

  /** A first balanced span of `rest` is one of `before + rest`, shifted. */
  lemma SpanAfterPrefix(before: string, rest: string, e: nat)
    requires FirstBalancedSpan(rest, 0, e)
    ensures FirstBalancedSpan(before + rest, |before|, |before| + e)
  {
    var text, b := before + rest, |before|;
    assert text[b] == rest[0];
    NestingShift(before, rest, e);
    forall j | b < j < b + e ensures Nesting(text, b, j) != Some([]) {
      NestingShift(before, rest, j - b);
    }
  }

  /** The nesting of a part of `rest` is the same after any prefix. */
  lemma {:induction false} NestingShift(before: string, rest: string, k: nat)
    requires k <= |rest|
    ensures Nesting(before + rest, |before|, |before| + k) == Nesting(rest, 0, k)
  {
    if k > 0 {
      NestingShift(before, rest, k - 1);
      assert (before + rest)[|before| + k - 1] == rest[k - 1];
    }
  }

  /** Only the first captured span is validated: when it does not parse the
      result is `"{}"`, even though a later span might. */
  lemma ExtractTriesOneSpan(loads: string -> bool)
    requires !loads("[x]")
    ensures Extracted("[x] [1]", loads) == EmptyObject
  {
    var text := "[x] [1]";
    assert FirstBalancedSpan(text, 0, 3) by {
      NestingOfOpener(text, 0);
      assert Nesting(text, 0, 2) == Some(['[']);
      assert Nesting(text, 0, 3) == Some([]);
    }
    ExtractFirstSpan(text, 0, 3, loads);
    assert text[0..3] == "[x]";
  }

  /** Quotes are not tracked: in `{"k":"}"}` the brace inside the string
      literal closes the candidate, so the valid whole is never tried. */
  lemma ExtractCountsQuotedBrackets(loads: string -> bool)
    requires !loads("{\"k\":\"}")
    ensures Extracted("{\"k\":\"}\"}", loads) == EmptyObject
  {
    var mid, rest := "\"k\":\"", "\"}";
    BraceSpan(mid, rest);
    var text := "{" + mid + "}" + rest;
    assert text == "{\"k\":\"}\"}";
    ExtractFirstSpan(text, 0, 7, loads);
    assert text[0..7] == "{\"k\":\"}";
  }

  /** A `{`, text without brackets (quotes included) and a `}` form the first
      balanced span, whatever follows. */
  lemma BraceSpan(mid: string, rest: string)
    requires forall k :: 0 <= k < |mid| ==> !IsOpener(mid[k]) && !IsCloser(mid[k])
    ensures FirstBalancedSpan("{" + mid + "}" + rest, 0, |mid| + 2)
  {
    var text := "{" + mid + "}" + rest;
    var n := |mid|;
    assert text[0] == '{' && text[n + 1] == '}';
    assert forall j :: 1 <= j < n + 1 ==> text[j] == mid[j - 1];
    NestingOfOpener(text, 0);
    forall k | 1 <= k <= n + 1 ensures Nesting(text, 0, k) == Some(['{']) {
      NoBracketKeepsNesting(text, 0, 1, k);
    }
    assert Nesting(text, 0, n + 2) == Some([]);
  }

  /** Characters other than brackets leave the nesting as it was. */
  lemma {:induction false} NoBracketKeepsNesting(text: string, lo: nat, k: nat, hi: nat)
    requires lo <= k <= hi <= |text|
    requires forall j :: k <= j < hi ==> !IsOpener(text[j]) && !IsCloser(text[j])
    ensures Nesting(text, lo, hi) == Nesting(text, lo, k)
    decreases hi
  {
    if k < hi {
      NoBracketKeepsNesting(text, lo, k, hi - 1);
    }
  }

  /** A fenced block whose content does not parse falls through to a scan of
      the WHOLE text, not of the fenced content: a balanced span at the start,
      before the fence, is what is returned. */
  lemma ExtractScansWholeTextAfterBadFence(before: string, content: string, after: string, e: nat, loads: string -> bool)
    requires forall k :: 0 <= k < |before| ==> before[k] != '`'
    requires forall k :: 0 <= k < |content| ==> content[k] != '`'
    requires !loads(Strip(content))
    requires FirstBalancedSpan(before, 0, e) && loads(before[..e])
    ensures Extracted(before + FenceOpen + content + FenceClose + after, loads) == before[..e]
  {
    var text := before + FenceOpen + content + FenceClose + after;
    assert !FenceAccepted(text, loads) by {
      FencedExample(before, content, after);
    }
    assert FirstBalancedSpan(text, 0, e) by {
      assert text[..e] == before[..e];
      FirstBalancedSamePrefix(text, before, e);
    }
    ScanDecides(text, 0, e, loads);
    assert text[0..e] == before[..e];
  }

  /** A fenced block whose content parses wins over anything before it,
      balanced spans included. */
  lemma ExtractPrefersFence(before: string, content: string, after: string, loads: string -> bool)
    requires forall k :: 0 <= k < |before| ==> before[k] != '`'
    requires forall k :: 0 <= k < |content| ==> content[k] != '`'
    requires loads(Strip(content))
    ensures Extracted(before + FenceOpen + content + FenceClose + after, loads) == Strip(content)
  {
    FencedExample(before, content, after);
  }

  lemma FencedExample(before: string, content: string, after: string)
    requires forall k :: 0 <= k < |before| ==> before[k] != '`'
    requires forall k :: 0 <= k < |content| ==> content[k] != '`'
    ensures FencedContent(before + FenceOpen + content + FenceClose + after) == Some(Strip(content))
  {
    var text := before + FenceOpen + content + FenceClose + after;
    var p := |before|;
    var q := p + |FenceOpen| + |content|;
    assert text[p..p + |FenceOpen|] == FenceOpen;
    assert text[q..q + |FenceClose|] == FenceClose;
    assert text[p + |FenceOpen|..q] == content;
    FenceAt(text, p, q);
  }

  lemma FirstBalancedSamePrefix(a: string, b: string, e: nat)
    requires e <= |a| && e <= |b| && a[..e] == b[..e] && FirstBalancedSpan(b, 0, e)
    ensures FirstBalancedSpan(a, 0, e)
  {
    assert a[0] == a[..e][0];
    forall k | 0 <= k <= e ensures Nesting(a, 0, k) == Nesting(b, 0, k) {
      assert a[..k] == a[..e][..k];
      assert b[..k] == b[..e][..k];
      NestingSamePrefix(a, b, 0, k);
    }
  }

  /** The nesting of a span depends only on the characters in it. */
  lemma {:induction false} NestingSamePrefix(a: string, b: string, lo: nat, hi: nat)
    requires lo <= hi <= |a| && hi <= |b| && a[..hi] == b[..hi]
    ensures Nesting(a, lo, hi) == Nesting(b, lo, hi)
    decreases hi
  {
    if lo < hi {
      assert a[hi - 1] == a[..hi][hi - 1] == b[hi - 1];
      assert a[..hi - 1] == b[..hi - 1] by {
        assert a[..hi - 1] == a[..hi][..hi - 1];
        assert b[..hi - 1] == b[..hi][..hi - 1];
      }
      NestingSamePrefix(a, b, lo, hi - 1);
    }
  }
}
