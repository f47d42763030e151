// compiler/src/repeat_expand.c, how it computes: growable buffers, a stack of frames and one loop.
// Every method is proved against RepeatSpec; the loop's invariant is that resuming the stack still
// yields the result the whole region had at the start.
module RepeatMachine {
  import opened Text
  import opened CheckedSize
  import opened RepeatSpec
  import opened RepeatTheorems
  import RepeatLaws

  /** What an operation reports: nothing, or a rule and the offset it is reported at. */
  datatype Status = Success | Error(code: ErrorCode, at: nat)

  /** The outcome of an operation that leaves its text in a buffer. */
  predicate Reports(st: Status, text: string, r: Outcome) {
    match r
    case Done(t) => st.Success? && text == t
    case Failed(code, at) => st == Error(code, at)
  }

  /** The loop that looks for "IDX". */
  method FindIdx(body: string, p: nat) returns (found: nat)
    requires p <= |body|
    ensures found == NextIdx(body, p)
  {
    found := p;
    while found < |body| && !StandaloneIdx(body, found)
      invariant p <= found <= |body|
      invariant NextIdx(body, p) == NextIdx(body, found)
    {
      found := found + 1;
    }
  }

  /** StrBuf: the bytes written so far and the allocated capacity, terminator included. */
  class StrBuf {
    var data: string
    var cap: Size

    predicate Valid(lim: Limits)
      reads this
    {
      |data| <= MaxLength(lim) && |data| + 1 <= cap
    }

    constructor (lim: Limits)
      ensures Valid(lim) && data == "" && cap == 4096
    {
      data, cap := "", 4096;
    }

    /** sb_append_limited: a refused append leaves the buffer as it was. */
    method AppendLimited(t: string, lim: Limits, at: nat) returns (st: Status)
      requires Valid(lim)
      modifies this
      ensures Valid(lim) && cap >= old(cap)
      ensures Reports(st, data, Append(old(data), t, lim, at))
      ensures st.Success? <==> t == "" || (|old(data)| + |t| <= lim.maxBytes && |old(data)| + |t| < SIZE_MAX)
      ensures data == if st.Success? then old(data) + t else old(data)
      ensures st.Error? ==>
                st == Error(if |old(data)| + |t| > lim.maxBytes then SizeLimitExceeded else InternalError, at)
    {
      if |t| == 0 {
        return Success;
      }
      if |data| > lim.maxBytes || |t| > lim.maxBytes - |data| {
        return Error(SizeLimitExceeded, at);
      }
      var length := AddChecked(|data|, |t|);
      if length.None? {
        return Error(InternalError, at);
      }
      var needed := AddChecked(length.value, 1);
      if needed.None? {
        return Error(InternalError, at);
      }
      while needed.value > cap
        invariant cap >= old(cap) && data == old(data)
        decreases needed.value - cap
      {
        cap := GrowDoubling(cap, needed.value, 4096);
      }
      data := data + t;
      return Success;
    }

    /** substitute_idx: append the body of iteration idx. */
    method SubstituteIdx(body: string, idx: nat, lim: Limits, at: nat) returns (st: Status)
      requires Valid(lim)
      modifies this
      ensures Valid(lim)
      ensures Reports(st, data, SubstInto(old(data), body, 0, IdxText(idx), lim, at))
    {
      hide StandaloneIdx, IdxText;
      var text := IdxText(idx);
      var p := 0;
      while p < |body|
        invariant p <= |body| && Valid(lim)
        invariant SubstInto(data, body, p, text, lim, at) == SubstInto(old(data), body, 0, text, lim, at)
        decreases |body| - p
      {
        var found := FindIdx(body, p);
        if found < |body| {
          st := AppendLimited(body[p..found], lim, at);
          if st.Error? { return; }
          st := AppendLimited(text, lim, at);
          if st.Error? { return; }
          p := found + 3;
        } else {
          st := AppendLimited(body[p..], lim, at);
          return;
        }
      }
      return Success;
    }
  }

  method SkipHorizontal(s: string, p: nat, end: nat) returns (q: nat)
    requires p <= end <= |s|
    ensures q == SkipHSpace(s, p, end)
  {
    q := p;
    while q < end && (s[q] == ' ' || s[q] == '\t')
      invariant p <= q <= end && SkipHSpace(s, p, end) == SkipHSpace(s, q, end)
    {
      q := q + 1;
    }
  }

  /** The rest of a directive line: skip_hspace and one newline. */
  method SkipRestOfLine(s: string, p: nat, end: nat) returns (q: nat)
    requires p <= end <= |s|
    ensures q == SkipLineTail(s, p, end)
  {
    q := SkipHorizontal(s, p, end);
    if q < end && s[q] == '\n' {
      q := q + 1;
    }
  }

  method SkipComment(s: string, p: nat, end: nat) returns (q: nat)
    requires p <= end <= |s|
    ensures q == LineEnd(s, p, end)
  {
    q := p;
    while q < end && s[q] != '\n'
      invariant p <= q <= end && LineEnd(s, p, end) == LineEnd(s, q, end)
    {
      q := q + 1;
    }
  }

  method SkipLiteral(s: string, p: nat, end: nat) returns (q: nat)
    requires p <= end <= |s|
    ensures q == StringStop(s, p, end)
  {
    q := p;
    while q < end && s[q] != '"' && s[q] != '\n'
      invariant p <= q <= end && StringStop(s, p, end) == StringStop(s, q, end)
      decreases end - q
    {
      if s[q] == '\\' && q + 1 < end {
        q := q + 1;
      }
      q := q + 1;
    }
  }

  /** One step of the matcher. It steps over the newline that cuts a literal short, where the shared
      definition stops in front of it; a newline is ordinary, so the match is the same. */
  lemma MatcherStep(s: string, p: nat, end: nat, depth: nat)
    requires p < end <= |s| && depth > 0
    ensures FindEnd(s, p, end, depth)
         == if CommentAt(s, p, end) then FindEnd(s, LineEnd(s, p, end), end, depth)
            else if s[p] == '"' then
              var q := StringStop(s, p + 1, end);
              FindEnd(s, if q < end then q + 1 else q, end, depth)
            else if s[p] == '@' && DirectiveAt(s, p, end, REPEAT) then FindEnd(s, p + 7, end, depth + 1)
            else if s[p] == '@' && DirectiveAt(s, p, end, END) then
              if depth == 1 then Some(p) else FindEnd(s, p + 4, end, depth - 1)
            else FindEnd(s, p + 1, end, depth)
    ensures CommentAt(s, p, end) ==> p < LineEnd(s, p, end) <= end
    ensures DirectiveAt(s, p, end, REPEAT) ==> p + 7 <= end
    ensures DirectiveAt(s, p, end, END) ==> p + 4 <= end
  {
    if s[p] == '"' {
      var q := StringStop(s, p + 1, end);
      if q < end && s[q] == '\n' {
        FindEndSkips(s, q, q + 1, end, depth);
      }
    }
  }

  lemma MatcherStops(s: string, p: nat, end: nat, depth: nat)
    requires end <= p <= end <= |s| && depth > 0
    ensures FindEnd(s, p, end, depth) == None
  {
  }

  /** find_matching_end. */
  method FindMatchingEnd(s: string, bodyStart: nat, end: nat) returns (r: Option<nat>)
    requires bodyStart <= end <= |s|
    ensures r == FindEnd(s, bodyStart, end, 1)
  {
    hide *;
    var depth, p := 1, bodyStart;
    ghost var target := FindEnd(s, bodyStart, end, 1);
    while p < end && depth > 0
      invariant p <= end && depth > 0
      invariant FindEnd(s, p, end, depth) == target
      decreases end - p
    {
      MatcherStep(s, p, end, depth);
      if CommentAt(s, p, end) {
        p := SkipComment(s, p, end);
        assert FindEnd(s, p, end, depth) == target;
      } else if s[p] == '"' {
        var q := SkipLiteral(s, p + 1, end);
        p := if q < end then q + 1 else q;
        assert FindEnd(s, p, end, depth) == target;
      } else if s[p] == '@' && DirectiveAt(s, p, end, REPEAT) {
        depth, p := depth + 1, p + 7;
      } else if s[p] == '@' && DirectiveAt(s, p, end, END) {
        if depth == 1 {
          return Some(p);
        }
        depth, p := depth - 1, p + 4;
      } else {
        p := p + 1;
      }
    }
    MatcherStops(s, p, end, depth);
    return None;
  }

  /** The count digits: exact as long as the value is a size_t, and flagged as soon as it is not. */
  method ReadCount(s: string, p: nat, end: nat) returns (count: Size, overflow: bool, q: nat)
    requires p <= end <= |s|
    ensures q == DigitsEnd(s, p, end)
    ensures overflow <==> DecimalValue(s[p..q]) > SIZE_MAX
    ensures !overflow ==> count == DecimalValue(s[p..q])
    ensures overflow ==> count > 0
  {
    count, overflow, q := 0, false, p;
    while q < end && IsDigit(s[q])
      invariant p <= q <= end && AllDigits(s[p..q])
      invariant DigitsEnd(s, p, end) == DigitsEnd(s, q, end)
      invariant overflow <==> DecimalValue(s[p..q]) > SIZE_MAX
      invariant !overflow ==> count == DecimalValue(s[p..q])
      invariant overflow ==> count > 0
    {
      var digit := DigitValue(s[q]);
      ghost var before := s[p..q];
      assert s[p..q + 1] == before + [s[q]] && (before + [s[q]])[..|before|] == before;
      if !overflow {
        if count > (SIZE_MAX - digit) / 10 {
          overflow := true;
        } else {
          count := count * 10 + digit;
        }
      }
      q := q + 1;
    }
  }

  /** What stands between "@repeat" and its body. */
  method ReadHeader(s: string, p: nat, end: nat, lim: Limits) returns (h: Header)
    requires p + 7 <= end <= |s|
    ensures h == ParseHeader(s, p, end, lim)
  {
    var a := SkipHorizontal(s, p + 7, end);
    if a >= end || !IsDigit(s[a]) {
      return BadHeader(CountInvalid);
    }
    var count, overflow, b := ReadCount(s, a, end);
    if count == 0 {
      return BadHeader(CountInvalid);
    }
    if overflow || count > lim.maxCount {
      return BadHeader(CountLimitExceeded);
    }
    var bodyStart := SkipRestOfLine(s, b, end);
    return Header(count, bodyStart);
  }

  method ReadRepeat(s: string, p: nat, end: nat, lim: Limits) returns (st: Status, h: Header, endAt: nat)
    requires p + 7 <= end <= |s|
    ensures h == ParseHeader(s, p, end, lim)
    ensures MatchedRepeat(s, p, end, h, endAt, st)
  {
    h := ReadHeader(s, p, end, lim);
    endAt := 0;
    if h.BadHeader? {
      return Error(h.code, p), h, endAt;
    }
    var found := FindMatchingEnd(s, h.bodyStart, end);
    if found.None? {
      return Error(NoMatchingEnd, p), h, endAt;
    }
    return Success, h, found.value;
  }

  // ---- Frames ----

  /** One region under expansion. A frame with a pending repeat waits for the frame above it, which
      expands that repeat's body. */
  class RepeatFrame {
    const regionEnd: nat
    const out: StrBuf
    var p: nat
    var pendingRepeat: bool
    var pendingCount: nat
    var pendingRepeatAt: nat
    var pendingEndAt: nat

    constructor (start: nat, regionEnd: nat, out: StrBuf)
      ensures this.regionEnd == regionEnd && this.out == out && p == start && !pendingRepeat
    {
      this.regionEnd, this.out, p := regionEnd, out, start;
      pendingRepeat, pendingCount, pendingRepeatAt, pendingEndAt := false, 0, 0, 0;
    }

    /** Wait at the repeat the frame stands at, whose body another frame expands. */
    method Await(count: nat, endAt: nat)
      modifies this
      ensures View() == old(View()).(pending := Some(Pending(count, old(p), endAt)))
    {
      pendingRepeat, pendingCount, pendingRepeatAt, pendingEndAt := true, count, p, endAt;
    }

    /** Append every iteration of the pending repeat, whose expanded body is in nested. */
    method Iterate(nested: StrBuf, lim: Limits, ghost parent: FrameView, ghost child: FrameView) returns (st: Status)
      requires View() == parent && parent.pending.Some? && out.Valid(lim) && nested != out && nested.data == child.acc
      modifies out
      ensures out.Valid(lim)
      ensures var pending := parent.pending.value;
              Reports(st, out.data, IterateInto(parent.acc, child.acc, 0, pending.count, lim, pending.at))
    {
      var i := 0;
      while i < pendingCount
        invariant i <= pendingCount && out.Valid(lim)
        invariant IterateInto(parent.acc, child.acc, 0, pendingCount, lim, pendingRepeatAt)
               == IterateInto(out.data, child.acc, i, pendingCount, lim, pendingRepeatAt)
      {
        st := out.SubstituteIdx(nested.data, i, lim, pendingRepeatAt);
        if st.Error? {
          return;
        }
        i := i + 1;
      }
      return Success;
    }

    /** Take over the expanded body: every iteration, then behind the @end line. */
    method GoOn(s: string, nested: StrBuf, lim: Limits, ghost parent: FrameView, ghost child: FrameView)
      returns (st: Status)
      requires View() == parent && Waiting(parent) && parent.end <= |s|
      requires out.Valid(lim) && nested != out && nested.data == child.acc
      modifies this, out
      ensures out.Valid(lim)
      ensures var pending := parent.pending.value;
              match IterateInto(parent.acc, child.acc, 0, pending.count, lim, pending.at)
              case Failed(code, at) => st == Error(code, at)
              case Done(t) =>
                && st.Success?
                && View() == FrameView(SkipLineTail(s, pending.endAt + 4, parent.end), parent.end, t, None)
    {
      st := Iterate(nested, lim, parent, child);
      if st.Success? {
        p := SkipRestOfLine(s, pendingEndAt + 4, regionEnd);
        pendingRepeat, pendingCount, pendingRepeatAt, pendingEndAt := false, 0, 0, 0;
      }
    }

    /** The frame as a value. */
    function View(): FrameView
      reads this, out
    {
      var pending := if pendingRepeat then Some(Pending(pendingCount, pendingRepeatAt, pendingEndAt)) else None;
      FrameView(p, regionEnd, out.data, pending)
    }
  }

  datatype Pending = Pending(count: nat, at: nat, endAt: nat)

  datatype FrameView = FrameView(p: nat, end: nat, acc: string, pending: Option<Pending>)

  /** Frames from the root up: every frame but the top waits at a repeat matched within its region. */
  predicate Stacked(fs: seq<FrameView>, s: string) {
    fs != [] && AllWaiting(fs[..|fs| - 1], s) && fs[|fs| - 1].p <= fs[|fs| - 1].end <= |s|
  }

  predicate AllWaiting(fs: seq<FrameView>, s: string) {
    forall i :: 0 <= i < |fs| ==> Waiting(fs[i]) && fs[i].end <= |s|
  }

  predicate Waiting(f: FrameView) {
    f.pending.Some? && f.p < f.pending.value.endAt && f.pending.value.endAt + 4 <= f.end
  }

  /** What a waiting frame makes of the result r of its body: the iterations, then the rest of its region. */
  function Deliver(s: string, parent: FrameView, r: Outcome, lim: Limits): Outcome
    requires Waiting(parent) && parent.end <= |s|
  {
    if r.Failed? then r
    else
      var pending := parent.pending.value;
      var a := IterateInto(parent.acc, r.text, 0, pending.count, lim, pending.at);
      if a.Failed? then a
      else ExpandInto(s, SkipLineTail(s, pending.endAt + 4, parent.end), parent.end, lim, a.text)
  }

  /** What a stack of waiting frames makes of the result r of the frame above them. */
  function Finish(s: string, below: seq<FrameView>, r: Outcome, lim: Limits): Outcome
    requires AllWaiting(below, s)
  {
    if below == [] then r
    else Finish(s, below[..|below| - 1], Deliver(s, below[|below| - 1], r, lim), lim)
  }

  /** The result of running the stack to completion. */
  function Resume(s: string, fs: seq<FrameView>, lim: Limits): Outcome
    requires Stacked(fs, s)
  {
    var top := fs[|fs| - 1];
    Finish(s, fs[..|fs| - 1], ExpandInto(s, top.p, top.end, lim, top.acc), lim)
  }

  /** The text the stack has still to scan: for a waiting frame, what follows its pending body; and
      one for every frame. */
  function Remaining(fs: seq<FrameView>): int
  {
    if fs == [] then 0
    else
      var top := fs[|fs| - 1];
      1 + top.end - (if top.pending.Some? then top.pending.value.endAt else top.p) + Remaining(fs[..|fs| - 1])
  }

  lemma RemainingNat(fs: seq<FrameView>, s: string)
    requires AllWaiting(fs, s)
    ensures Remaining(fs) >= 0
  {
  }

  lemma {:induction false} RemainingSplit(below: seq<FrameView>, top: FrameView)
    ensures Remaining(below + [top])
         == 1 + top.end - (if top.pending.Some? then top.pending.value.endAt else top.p) + Remaining(below)
  {
    assert (below + [top])[..|below|] == below;
  }

  lemma ResumeSplit(s: string, below: seq<FrameView>, top: FrameView, lim: Limits)
    requires Stacked(below + [top], s)
    ensures AllWaiting(below, s)
    ensures Resume(s, below + [top], lim) == Finish(s, below, ExpandInto(s, top.p, top.end, lim, top.acc), lim)
  {
    assert (below + [top])[..|below|] == below;
  }

  lemma FinishSplit(s: string, below: seq<FrameView>, parent: FrameView, r: Outcome, lim: Limits)
    requires AllWaiting(below, s) && Waiting(parent) && parent.end <= |s|
    ensures AllWaiting(below + [parent], s)
    ensures Finish(s, below + [parent], r, lim) == Finish(s, below, Deliver(s, parent, r, lim), lim)
  {
    assert (below + [parent])[..|below|] == below;
  }

  lemma {:induction false} FinishFailed(s: string, below: seq<FrameView>, r: Outcome, lim: Limits)
    requires AllWaiting(below, s) && r.Failed?
    ensures Finish(s, below, r, lim) == r
  {
    if below != [] {
      FinishFailed(s, below[..|below| - 1], r, lim);
    }
  }

  /** Copying text changes nothing but where the top frame stands. */
  lemma CopyStep(s: string, below: seq<FrameView>, top: FrameView, q: nat, lim: Limits)
    requires Stacked(below + [top], s) && top.pending.None? && top.p < q <= top.end
    requires ExpandInto(s, top.p, top.end, lim, top.acc) == CopyInto(s, top.p, q, top.end, lim, top.acc)
    ensures var r := Append(top.acc, s[top.p..q], lim, top.p);
            if r.Failed? then Resume(s, below + [top], lim) == r
            else
              var top' := top.(p := q, acc := r.text);
              && Stacked(below + [top'], s)
              && Resume(s, below + [top'], lim) == Resume(s, below + [top], lim)
              && Remaining(below + [top']) < Remaining(below + [top])
  {
    var r := Append(top.acc, s[top.p..q], lim, top.p);
    ResumeSplit(s, below, top, lim);
    if r.Failed? {
      FinishFailed(s, below, r, lim);
    } else {
      var top' := top.(p := q, acc := r.text);
      StackedReplace(s, below, top, [top']);
      ResumeSplit(s, below, top', lim);
      RemainingSplit(below, top);
      RemainingSplit(below, top');
    }
  }

  lemma StackedReplace(s: string, below: seq<FrameView>, top: FrameView, above: seq<FrameView>)
    requires Stacked(below + [top], s)
    requires Stacked(above, s)
    ensures Stacked(below + above, s)
  {
    assert (below + above)[..|below + above| - 1] == below + above[..|above| - 1];
    assert below == (below + [top])[..|below|];
  }

  lemma BlockIsDelivered(s: string, top: FrameView, h: Header, endAt: nat, lim: Limits)
    requires top.p < top.end <= |s| && HeaderFor(h, top.p, top.end, |s|) && h.Header?
    requires FindEnd(s, h.bodyStart, top.end, 1) == Some(endAt)
    ensures var waiting := top.(pending := Some(Pending(h.count, top.p, endAt)));
            && Waiting(waiting)
            && BlockInto(s, top.p, h, top.end, lim, top.acc)
            == Deliver(s, waiting, ExpandInto(s, h.bodyStart, endAt, lim, ""), lim)
  {
    hide FindEnd, ElementAt, SkipLineTail, IterateInto, ExpandInto;
  }

  lemma PushRemaining(below: seq<FrameView>, waiting: FrameView, child: FrameView, top: FrameView)
    requires Waiting(waiting) && waiting.end == top.end && top.pending.None? && child.pending.None?
    requires top.p + 7 < child.p <= child.end == waiting.pending.value.endAt
    ensures Remaining(below + [waiting, child]) < Remaining(below + [top])
  {
    assert below + [waiting, child] == (below + [waiting]) + [child];
    RemainingSplit(below, top);
    RemainingSplit(below, waiting);
    RemainingSplit(below + [waiting], child);
  }

  /** A repeat is expanded by a new frame over its body, on top of the frame that now waits for it. */
  lemma PushStep(s: string, below: seq<FrameView>, top: FrameView, h: Header, endAt: nat, lim: Limits)
    requires Stacked(below + [top], s) && top.pending.None? && top.p < top.end <= |s|
    requires HeaderFor(h, top.p, top.end, |s|) && h.Header?
    requires ExpandInto(s, top.p, top.end, lim, top.acc) == BlockInto(s, top.p, h, top.end, lim, top.acc)
    requires FindEnd(s, h.bodyStart, top.end, 1) == Some(endAt)
    ensures var waiting := top.(pending := Some(Pending(h.count, top.p, endAt)));
            var child := FrameView(h.bodyStart, endAt, "", None);
            && Stacked(below + [waiting, child], s)
            && Resume(s, below + [waiting, child], lim) == Resume(s, below + [top], lim)
            && Remaining(below + [waiting, child]) < Remaining(below + [top])
  {
    var waiting := top.(pending := Some(Pending(h.count, top.p, endAt)));
    var child := FrameView(h.bodyStart, endAt, "", None);
    ResumeSplit(s, below, top, lim);
    BlockIsDelivered(s, top, h, endAt, lim);
    PushResume(s, below, waiting, child, lim);
    PushRemaining(below, waiting, child, top);
  }

  lemma PushResume(s: string, below: seq<FrameView>, waiting: FrameView, child: FrameView, lim: Limits)
    requires AllWaiting(below, s) && Waiting(waiting) && waiting.end <= |s| && child.p <= child.end <= |s|
    ensures Stacked(below + [waiting, child], s)
    ensures Resume(s, below + [waiting, child], lim)
         == Finish(s, below, Deliver(s, waiting, ExpandInto(s, child.p, child.end, lim, child.acc), lim), lim)
  {
    hide ExpandInto, Deliver, Finish, Resume, ElementAt;
    var r := ExpandInto(s, child.p, child.end, lim, child.acc);
    FinishSplit(s, below, waiting, r, lim);
    assert below + [waiting, child] == (below + [waiting]) + [child];
    assert ((below + [waiting]) + [child])[..|below| + 1] == below + [waiting];
    ResumeSplit(s, below + [waiting], child, lim);
  }

  /** A frame at the end of its region hands its text to the frame that waits for it: the iterations
      are refused, and so is the whole expansion... */
  lemma PopRefused(s: string, below: seq<FrameView>, parent: FrameView, child: FrameView, r: Outcome, lim: Limits)
    requires AllWaiting(below, s) && Waiting(parent) && parent.end <= |s| && child.p == child.end <= |s|
    requires r == IterateInto(parent.acc, child.acc, 0, parent.pending.value.count, lim, parent.pending.value.at)
    requires r.Failed?
    ensures Stacked(below + [parent, child], s)
    ensures Resume(s, below + [parent, child], lim) == r
  {
    PushResume(s, below, parent, child, lim);
    assert ExpandInto(s, child.p, child.end, lim, child.acc) == Done(child.acc);
    FinishFailed(s, below, r, lim);
  }

  /** ... or are appended, and the parent goes on behind its @end line. */
  lemma PopStep(s: string, below: seq<FrameView>, parent: FrameView, child: FrameView, resumed: FrameView, lim: Limits)
    requires AllWaiting(below, s) && Waiting(parent) && parent.end <= |s|
    requires child.p == child.end <= |s| && child.pending.None?
    requires var pending := parent.pending.value;
             && resumed.p == SkipLineTail(s, pending.endAt + 4, parent.end)
             && resumed.end == parent.end && resumed.pending.None?
             && IterateInto(parent.acc, child.acc, 0, pending.count, lim, pending.at) == Done(resumed.acc)
    ensures Stacked(below + [parent, child], s) && Stacked(below + [resumed], s)
    ensures Resume(s, below + [resumed], lim) == Resume(s, below + [parent, child], lim)
    ensures Remaining(below + [resumed]) < Remaining(below + [parent, child])
  {
    PopResume(s, below, parent, child, resumed, lim);
    PopRemaining(below, parent, child, resumed);
  }

  lemma PopResume(s: string, below: seq<FrameView>, parent: FrameView, child: FrameView, resumed: FrameView,
                  lim: Limits)
    requires AllWaiting(below, s) && Waiting(parent) && parent.end <= |s|
    requires child.p == child.end <= |s| && resumed.p <= resumed.end <= |s|
    requires Deliver(s, parent, Done(child.acc), lim) == ExpandInto(s, resumed.p, resumed.end, lim, resumed.acc)
    ensures Stacked(below + [parent, child], s) && Stacked(below + [resumed], s)
    ensures Resume(s, below + [parent, child], lim) == Resume(s, below + [resumed], lim)
  {
    PushResume(s, below, parent, child, lim);
    assert ExpandInto(s, child.p, child.end, lim, child.acc) == Done(child.acc);
    assert (below + [resumed])[..|below|] == below;
    ResumeSplit(s, below, resumed, lim);
  }

  lemma PopRemaining(below: seq<FrameView>, parent: FrameView, child: FrameView, resumed: FrameView)
    requires Waiting(parent) && child.p <= child.end && child.pending.None?
    requires resumed.end == parent.end && resumed.p >= parent.pending.value.endAt && resumed.pending.None?
    ensures Remaining(below + [resumed]) < Remaining(below + [parent, child])
  {
    assert below + [parent, child] == (below + [parent]) + [child];
    RemainingSplit(below, parent);
    RemainingSplit(below + [parent], child);
    RemainingSplit(below, resumed);
  }

  /** The frames of one expansion. Each frame writes to a buffer of its own. */
  class RepeatFrameStack {
    var data: seq<RepeatFrame>
    var cap: nat
    /** Everything an expansion may change: the stack, its frames and their buffers. */
    ghost var Repr: set<object>

    ghost predicate Owned()
      reads this
    {
      this in Repr && forall f <- data :: f in Repr && f.out in Repr
    }

    ghost predicate Valid(lim: Limits)
      reads this, Repr
    {
      && Owned()
      && |data| <= cap
      && (forall i, j :: 0 <= i < j < |data| ==> data[i] != data[j] && data[i].out != data[j].out)
      && (forall f <- data :: f.out.Valid(lim))
    }

    ghost function Views(): (fs: seq<FrameView>)
      requires Owned()
      reads this, Repr
      ensures |fs| == |data| && forall i :: 0 <= i < |data| ==> fs[i] == data[i].View()
    {
      seq(|data|, i requires 0 <= i < |data| && Owned() reads this, Repr => data[i].View())
    }

    constructor ()
      ensures data == [] && cap == 0 && Repr == {this}
    {
      data, cap, Repr := [], 0, {this};
    }

    /** repeat_frame_stack_push. */
    method Push(frame: RepeatFrame, ghost lim: Limits)
      requires Valid(lim) && frame.out.Valid(lim)
      requires forall f <- data :: f != frame && f.out != frame.out
      modifies this
      ensures data == old(data) + [frame] && Valid(lim)
      ensures Repr == old(Repr) + {frame, frame.out}
      ensures Views() == old(Views()) + [frame.View()]
    {
      if |data| == cap {
        cap := if cap != 0 then 2 * cap else 8;
      }
      data := data + [frame];
      Repr := Repr + {frame, frame.out};
    }

    /** Copy the text up to q to the buffer of the top frame. */
    method Copy(s: string, q: nat, lim: Limits, ghost below: seq<FrameView>, ghost view: FrameView)
      returns (st: Status)
      requires Valid(lim) && data != [] && Views() == below + [view] && view.p < q <= |s|
      modifies data[|data| - 1], data[|data| - 1].out
      ensures Valid(lim)
      ensures Copied(s, q, below, view, st, Views(), lim)
    {
      var top := data[|data| - 1];
      assert top.View() == (below + [view])[|below|] == view;
      st := top.out.AppendLimited(s[top.p..q], lim, top.p);
      if st.Success? {
        top.p := q;
        assert top.View() == view.(p := q, acc := Append(view.acc, s[view.p..q], lim, view.p).text);
        forall i | 0 <= i < |below| ensures Views()[i] == below[i] {
          assert data[i] != top && data[i].out != top.out;
          assert below[i] == (below + [view])[i];
        }
      }
    }

    /** Leave the top frame waiting for the repeat at its position and open a frame on its body. */
    method OpenBody(h: Header, endAt: nat, lim: Limits, ghost below: seq<FrameView>, ghost view: FrameView)
      requires Valid(lim) && data != [] && Views() == below + [view] && h.Header?
      modifies this, data[|data| - 1]
      ensures Valid(lim) && data != [] && data[0] == old(data[0])
      ensures fresh(Repr - old(Repr))
      ensures Views() == Opened(h, endAt, below, view)
    {
      var top := data[|data| - 1];
      assert top.View() == (below + [view])[|below|] == view;
      top.Await(h.count, endAt);
      forall i | 0 <= i < |below| ensures Views()[i] == below[i] {
        assert data[i] != top;
        assert below[i] == (below + [view])[i];
      }
      ghost var waiting := view.(pending := Some(Pending(h.count, view.p, endAt)));
      assert Views() == below + [waiting];
      var nestedOut := new StrBuf(lim);
      var child := new RepeatFrame(h.bodyStart, endAt, nestedOut);
      Push(child, lim);
      assert Views() == Opened(h, endAt, below, view);
    }

    /** Drop a finished frame: its text, once for every index, goes to the frame below, which goes on
        behind its @end line. */
    method CloseBody(s: string, lim: Limits, ghost below: seq<FrameView>, ghost parent: FrameView,
                     ghost child: FrameView)
      returns (st: Status)
      requires Valid(lim) && |data| >= 2 && Views() == below + [parent, child]
      requires Waiting(parent) && parent.end <= |s|
      modifies this`data, data[|data| - 2], data[|data| - 2].out
      ensures Valid(lim) && data == old(data)[..|old(data)| - 1]
      ensures Closed(s, below, parent, child, st, Views(), lim)
    {
      var finished, waiting := data[|data| - 1], data[|data| - 2];
      assert finished.View() == (below + [parent, child])[|below| + 1] == child;
      assert waiting.View() == (below + [parent, child])[|below|] == parent;
      data := data[..|data| - 1];
      st := waiting.GoOn(s, finished.out, lim, parent, child);
      if st.Success? {
        forall i | 0 <= i < |below| ensures Views()[i] == below[i] {
          assert data[i] != waiting && data[i].out != waiting.out && data[i] == old(data)[i];
          assert below[i] == (below + [parent, child])[i];
        }
      }
    }

    /** The top frame is at the end of its region. */
    method StepClose(s: string, lim: Limits, ghost fs: seq<FrameView>) returns (st: Status)
      requires Valid(lim) && Views() == fs && Resumable(fs, s)
      requires |fs| >= 2 && fs[|fs| - 1].p == fs[|fs| - 1].end
      modifies Repr
      ensures Valid(lim) && Repr == old(Repr) && data != [] && data[0] == old(data[0])
      ensures Progress(s, fs, st, Views(), lim)
    {
      hide Closed, Progress, Resume, Remaining;
      ghost var below, parent, child := fs[..|fs| - 2], fs[|fs| - 2], fs[|fs| - 1];
      ClosingFacts(fs, s);
      st := CloseBody(s, lim, below, parent, child);
      CloseProgress(s, below, parent, child, st, Views(), lim);
    }

    /** The top frame is at text that is taken as it is up to q. */
    method StepCopy(s: string, q: nat, lim: Limits, ghost fs: seq<FrameView>) returns (st: Status)
      requires Valid(lim) && Views() == fs && Resumable(fs, s)
      requires CopiesTo(s, fs[|fs| - 1], q, lim)
      modifies Repr
      ensures Valid(lim) && Repr == old(Repr) && data != [] && data[0] == old(data[0])
      ensures Progress(s, fs, st, Views(), lim)
    {
      hide ElementAt, ExpandInto, CopyInto, Copied, Progress, Resume, Remaining, Append;
      ghost var below, top := fs[..|fs| - 1], fs[|fs| - 1];
      assert fs == below + [top];
      st := Copy(s, q, lim, below, top);
      CopyProgress(s, q, below, top, st, Views(), lim);
    }

    /** The top frame is at an active repeat. */
    method StepRepeat(s: string, lim: Limits, ghost fs: seq<FrameView>) returns (st: Status)
      requires Valid(lim) && Views() == fs && Resumable(fs, s)
      requires var top := fs[|fs| - 1]; top.p < top.end && ElementAt(s, top.p, top.end).OpenRepeat?
      modifies Repr
      ensures Valid(lim) && fresh(Repr - old(Repr)) && data != [] && data[0] == old(data[0])
      ensures Progress(s, fs, st, Views(), lim)
    {
      hide ElementAt, ExpandInto, Progress, Resume, Remaining, Stacked;
      TopOfStack(fs, s);
      ghost var below, view := fs[..|fs| - 1], fs[|fs| - 1];
      assert fs == below + [view];
      var frame := data[|data| - 1];
      assert frame.View() == view;
      var h, endAt;
      st, h, endAt := AnswerRepeat(s, frame.p, frame.regionEnd, lim, below, view);
      if st.Success? {
        OpenBody(h, endAt, lim, below, view);
      } else {
        SameFailure(s, fs, st, [], Views(), lim);
      }
    }

    /** One turn of the expansion loop, unless the root frame is finished. */
    method Step(s: string, lim: Limits, ghost fs: seq<FrameView>) returns (st: Status)
      requires Valid(lim) && Views() == fs && Resumable(fs, s)
      requires fs[|fs| - 1].p == fs[|fs| - 1].end ==> |fs| >= 2
      modifies Repr
      ensures Valid(lim) && fresh(Repr - old(Repr)) && data != [] && data[0] == old(data[0])
      ensures Progress(s, fs, st, Views(), lim)
    {
      hide ElementAt, ExpandInto, Progress, Resume, Remaining;
      var frame := data[|data| - 1];
      var p, e := frame.p, frame.regionEnd;
      assert fs[|fs| - 1] == frame.View();
      if p >= e {
        st := StepClose(s, lim, fs);
        return;
      }
      TopElement(s, fs[|fs| - 1], lim);
      if CommentAt(s, p, e) {
        var q := SkipComment(s, p, e);
        st := StepCopy(s, q, lim, fs);
      } else if s[p] == '"' {
        var q := SkipLiteral(s, p + 1, e);
        if q < e && s[q] == '"' {
          q := q + 1;
        }
        st := StepCopy(s, q, lim, fs);
      } else if s[p] == '@' && DirectiveAt(s, p, e, REPEAT) {
        st := StepRepeat(s, lim, fs);
      } else {
        st := StepCopy(s, p + 1, lim, fs);
      }
    }
  }

  /** A stack between two steps. */
  predicate Resumable(fs: seq<FrameView>, s: string) {
    Stacked(fs, s) && fs[|fs| - 1].pending.None?
  }

  /** One step from fs: either the failure the whole stack stands for, or a smaller stack fs' that
      stands for the same result. */
  predicate Progress(s: string, fs: seq<FrameView>, st: Status, fs': seq<FrameView>, lim: Limits)
    requires Stacked(fs, s)
  {
    match st
    case Error(code, at) => Resume(s, fs, lim) == Failed(code, at)
    case Success =>
      Resumable(fs', s) && Resume(s, fs', lim) == Resume(s, fs, lim) && Remaining(fs') < Remaining(fs)
  }

  /** A frame that stands before text copied verbatim. */
  predicate CopiesTo(s: string, top: FrameView, q: nat, lim: Limits) {
    && top.p < q <= top.end <= |s|
    && ExpandInto(s, top.p, top.end, lim, top.acc) == CopyInto(s, top.p, q, top.end, lim, top.acc)
  }

  /** The effect of copying s[view.p..q] in the top frame. */
  predicate Copied(s: string, q: nat, below: seq<FrameView>, view: FrameView, st: Status, fs': seq<FrameView>,
                   lim: Limits)
    requires view.p <= q <= |s|
  {
    match Append(view.acc, s[view.p..q], lim, view.p)
    case Failed(code, at) => st == Error(code, at)
    case Done(t) => st.Success? && fs' == below + [view.(p := q, acc := t)]
  }

  /** The stack after opening a frame on the body of the repeat the top frame stands at. */
  function Opened(h: Header, endAt: nat, below: seq<FrameView>, view: FrameView): seq<FrameView>
    requires h.Header?
  {
    below + [view.(pending := Some(Pending(h.count, view.p, endAt))), FrameView(h.bodyStart, endAt, "", None)]
  }

  /** The effect of a finished frame on the frame that waits for it. */
  predicate Closed(s: string, below: seq<FrameView>, parent: FrameView, child: FrameView, st: Status,
                   fs': seq<FrameView>, lim: Limits)
    requires Waiting(parent) && parent.end <= |s|
  {
    var pending := parent.pending.value;
    match IterateInto(parent.acc, child.acc, 0, pending.count, lim, pending.at)
    case Failed(code, at) => st == Error(code, at)
    case Done(t) =>
      st.Success? && fs' == below + [FrameView(SkipLineTail(s, pending.endAt + 4, parent.end), parent.end, t, None)]
  }

  lemma CopyProgress(s: string, q: nat, below: seq<FrameView>, top: FrameView, st: Status, fs': seq<FrameView>,
                     lim: Limits)
    requires Resumable(below + [top], s) && CopiesTo(s, top, q, lim)
    requires Copied(s, q, below, top, st, fs', lim)
    ensures Progress(s, below + [top], st, fs', lim)
  {
    CopyStep(s, below, top, q, lim);
  }

  /** What the expander does with the element the top frame stands at. */
  lemma TopElement(s: string, top: FrameView, lim: Limits)
    requires top.p < top.end <= |s|
    ensures var p, e := top.p, top.end;
            if CommentAt(s, p, e) then CopiesTo(s, top, LineEnd(s, p, e), lim)
            else if s[p] == '"' then CopiesTo(s, top, AfterString(s, p, e), lim)
            else if s[p] == '@' && DirectiveAt(s, p, e, REPEAT) then ElementAt(s, p, e).OpenRepeat?
            else CopiesTo(s, top, p + 1, lim)
  {
  }

  lemma TopOfStack(fs: seq<FrameView>, s: string)
    requires Stacked(fs, s)
    ensures fs != [] && fs == fs[..|fs| - 1] + [fs[|fs| - 1]] && fs[|fs| - 1].p <= fs[|fs| - 1].end <= |s|
  {
  }

  /** What a failed step leaves on the stack does not matter. */
  lemma SameFailure(s: string, fs: seq<FrameView>, st: Status, a: seq<FrameView>, b: seq<FrameView>, lim: Limits)
    requires Stacked(fs, s) && st.Error? && Progress(s, fs, st, a, lim)
    ensures Progress(s, fs, st, b, lim)
  {
  }

  /** A repeat opens a frame on its body, or fails the whole expansion. */
  lemma RepeatProgress(s: string, below: seq<FrameView>, top: FrameView, h: Header, endAt: nat, st: Status, lim: Limits)
    requires Resumable(below + [top], s) && top.p < top.end <= |s| && ElementAt(s, top.p, top.end).OpenRepeat?
    requires h == ParseHeader(s, top.p, top.end, lim) && MatchedRepeat(s, top.p, top.end, h, endAt, st)
    ensures Progress(s, below + [top], st, if st.Success? then Opened(h, endAt, below, top) else [], lim)
  {
    var r := ExpandInto(s, top.p, top.end, lim, top.acc);
    assert r == BlockInto(s, top.p, h, top.end, lim, top.acc);
    if st.Success? {
      PushStep(s, below, top, h, endAt, lim);
    } else {
      ResumeSplit(s, below, top, lim);
      FinishFailed(s, below, r, lim);
    }
  }

  /** A repeat at p is reported for its header or its missing @end, or has its body end at endAt. */
  predicate MatchedRepeat(s: string, p: nat, e: nat, h: Header, endAt: nat, st: Status)
    requires HeaderFor(h, p, e, |s|)
  {
    match h
    case BadHeader(code) => st == Error(code, p)
    case Header(_, bodyStart) =>
      match FindEnd(s, bodyStart, e, 1)
      case None => st == Error(NoMatchingEnd, p)
      case Some(q) => st == Success && endAt == q
  }

  /** Read the repeat at p, which is where the top frame of below + [top] stands. */
  method AnswerRepeat(s: string, p: nat, end: nat, lim: Limits, ghost below: seq<FrameView>, ghost top: FrameView)
    returns (st: Status, h: Header, endAt: nat)
    requires Resumable(below + [top], s) && top.p == p < end == top.end <= |s| && ElementAt(s, p, end).OpenRepeat?
    ensures st.Success? ==> h.Header?
    ensures Progress(s, below + [top], st, if st.Success? then Opened(h, endAt, below, top) else [], lim)
  {
    st, h, endAt := ReadRepeat(s, p, end, lim);
    RepeatProgress(s, below, top, h, endAt, st, lim);
  }

  lemma CloseProgress(s: string, below: seq<FrameView>, parent: FrameView, child: FrameView, st: Status,
                      fs': seq<FrameView>, lim: Limits)
    requires AllWaiting(below, s) && Waiting(parent) && parent.end <= |s|
    requires child.p == child.end <= |s| && child.pending.None?
    requires Closed(s, below, parent, child, st, fs', lim)
    ensures Stacked(below + [parent, child], s)
    ensures Progress(s, below + [parent, child], st, fs', lim)
  {
    var pending := parent.pending.value;
    var r := IterateInto(parent.acc, child.acc, 0, pending.count, lim, pending.at);
    if r.Failed? {
      PopRefused(s, below, parent, child, r, lim);
    } else {
      PopStep(s, below, parent, child, fs'[|below|], lim);
    }
  }

  lemma ClosingFacts(fs: seq<FrameView>, s: string)
    requires Stacked(fs, s) && |fs| >= 2
    ensures AllWaiting(fs[..|fs| - 2], s) && Waiting(fs[|fs| - 2]) && fs[|fs| - 2].end <= |s|
    ensures fs == fs[..|fs| - 2] + [fs[|fs| - 2], fs[|fs| - 1]]
  {
    var below := fs[..|fs| - 1];
    assert below[|fs| - 2] == fs[|fs| - 2];
    assert fs[..|fs| - 2] == below[..|fs| - 2];
  }

  /** expand_region: the buffer receives the expansion of s[start..end], or the first failure in the
      order of the text is reported. */
  method ExpandRegion(s: string, start: nat, end: nat, lim: Limits, out: StrBuf) returns (st: Status)
    requires start <= end <= |s| && out.Valid(lim)
    modifies out
    ensures Reports(st, out.data, ExpandInto(s, start, end, lim, old(out.data)))
    ensures out.Valid(lim)
  {
    hide *;
    var stack := new RepeatFrameStack();
    var root := new RepeatFrame(start, end, out);
    NewStackIsValid(stack, lim);
    stack.Push(root, lim);
    StackOwns(stack, lim);
    ghost var fs := [root.View()];
    ghost var target := ExpandInto(s, start, end, lim, out.data);
    assert stack.Views() == fs;
    ViewOf(root);
    ResumeAtStart(s, root.View(), lim);
    while true
      invariant stack.Valid(lim) && stack.Owned() && stack.data != [] && stack.Views() == fs
      invariant stack.data[0] == root && root.out == out && fresh(stack.Repr - {out})
      invariant Stacked(fs, s) && Resumable(fs, s) && Resume(s, fs, lim) == target
      decreases Remaining(fs)
    {
      assert fs[0] == root.View();
      ViewOf(root);
      StackOwns(stack, lim);
      if |stack.data| == 1 && root.p >= root.regionEnd {
        ResumeOfRoot(s, fs, lim);
        Reported(Success, out.data, target);
        return Success;
      }
      RemainingOfStack(s, fs);
      st := stack.Step(s, lim, fs);
      StackOwns(stack, lim);
      ProgressMeans(s, fs, st, stack.Views(), lim);
      if st.Error? {
        Reported(st, out.data, target);
        return;
      }
      fs := stack.Views();
    }
  }

  lemma RemainingOfStack(s: string, fs: seq<FrameView>)
    requires Resumable(fs, s)
    ensures Remaining(fs) >= 0
  {
    var below, top := fs[..|fs| - 1], fs[|fs| - 1];
    assert fs == below + [top];
    RemainingNat(below, s);
    RemainingSplit(below, top);
  }

  lemma NewStackIsValid(stack: RepeatFrameStack, lim: Limits)
    requires stack.data == [] && stack.Repr == {stack}
    ensures stack.Valid(lim)
  {
  }

  lemma StackOwns(stack: RepeatFrameStack, lim: Limits)
    requires stack.Valid(lim)
    ensures stack.Owned() && forall i :: 0 <= i < |stack.data| ==> stack.data[i].out.Valid(lim)
  {
  }

  lemma ViewOf(f: RepeatFrame)
    ensures f.View().p == f.p && f.View().end == f.regionEnd && f.View().acc == f.out.data
    ensures !f.pendingRepeat ==> f.View().pending == None
  {
  }

  lemma Reported(st: Status, text: string, r: Outcome)
    ensures Reports(st, text, r) <==> r == match st case Success => Done(text) case Error(code, at) => Failed(code, at)
  {
  }

  lemma ProgressMeans(s: string, fs: seq<FrameView>, st: Status, fs': seq<FrameView>, lim: Limits)
    requires Stacked(fs, s) && Progress(s, fs, st, fs', lim)
    ensures st.Error? ==> Resume(s, fs, lim) == Failed(st.code, st.at)
    ensures st.Success? ==>
              && Stacked(fs', s) && Resumable(fs', s)
              && Resume(s, fs', lim) == Resume(s, fs, lim) && Remaining(fs') < Remaining(fs)
  {
  }

  lemma ResumeAtStart(s: string, root: FrameView, lim: Limits)
    requires root.p <= root.end <= |s| && root.pending == None
    ensures Stacked([root], s) && Resumable([root], s)
    ensures Resume(s, [root], lim) == ExpandInto(s, root.p, root.end, lim, root.acc)
  {
    assert [root][..0] == [];
  }

  lemma ResumeOfRoot(s: string, fs: seq<FrameView>, lim: Limits)
    requires Resumable(fs, s) && |fs| == 1 && fs[0].p >= fs[0].end
    ensures Resume(s, fs, lim) == Done(fs[0].acc)
  {
    assert ExpandInto(s, fs[0].p, fs[0].end, lim, fs[0].acc) == Done(fs[0].acc);
  }

  const DEFAULT_LIMITS := Limits(1024, 1024 * 1024)

  /** strstr(source, "@repeat"). */
  method HasRepeatText(source: string) returns (found: bool)
    ensures found <==> exists k :: RepeatTextAt(source, k)
  {
    var k := 0;
    while k + 7 <= |source|
      invariant forall j :: 0 <= j < k ==> !RepeatTextAt(source, j)
    {
      if RepeatTextAt(source, k) {
        return true;
      }
      k := k + 1;
    }
    return false;
  }

  /** jz_repeat_expand. A source without "@repeat" is copied whatever its length; any other source is
      expanded, and what comes back is the recursive definition's text exactly when it fits. */
  method RepeatExpand(source: string, limits: Option<Limits>) returns (r: Outcome)
    ensures var lim := if limits.Some? then limits.value else DEFAULT_LIMITS;
            if exists k :: RepeatTextAt(source, k) then r == ExpandInto(source, 0, |source|, lim, "")
            else r == Done(source)
    ensures RepeatLaws.AsDocument(source, if limits.Some? then limits.value else DEFAULT_LIMITS, r)
  {
    var effective := if limits.Some? then limits.value else DEFAULT_LIMITS;
    var found := HasRepeatText(source);
    if !found {
      RepeatLaws.ExpandedAsDocument(source, effective, Done(source));
      return Done(source);
    }
    var out := new StrBuf(effective);
    var st := ExpandRegion(source, 0, |source|, effective, out);
    r := if st.Success? then Done(out.data) else Failed(st.code, st.at);
    RepeatLaws.ExpandedAsDocument(source, effective, r);
  }
}
