// What a client of the runtime's exports holds after a run of requests, given only the addresses returned.

module Replays {
  import opened Options
  import opened BinMaps
  import opened Alignment
  import opened Allocator

  /** What a client asked for, and what it has written there, by offset. */
  datatype Grant = Grant(size: nat, align: nat, bytes: map<nat, nat>)

  datatype Request =
    | Alloc(size: nat, align: nat)
    | AllocZeroed(size: nat, align: nat)
    | Release(mem: int)
    | Resize(mem: int, size: nat)
    | Write(mem: int, offset: nat, value: nat)

  /** A block of which every byte is known to be zero. */
  function Zeros(size: nat): (r: map<nat, nat>)
    ensures forall i: nat :: i in r <==> i < size
    ensures forall i :: i in r ==> r[i] == 0
  {
    if size == 0 then map[] else Zeros(size - 1)[size - 1 := 0]
  }

  /** What is left of the bytes written when a block gets a new size. */
  function Prefix(bytes: map<nat, nat>, size: nat): map<nat, nat> {
    map i | i in bytes && i < size :: bytes[i]
  }

  // ---------- what a run of requests comes to, given the answers ----------

  /** Blocks held after one more request; the answer is the address returned, or 0. */
  function Step(held: map<int, Grant>, request: Request, answer: int): map<int, Grant> {
    match request
    case Alloc(size, align) => if answer == 0 then held else held[answer := Grant(size, align, map[])]
    case AllocZeroed(size, align) => if answer == 0 then held else held[answer := Grant(size, align, Zeros(size))]
    case Release(mem) => held - {mem}
    case Resize(mem, size) =>
      if answer == 0 || mem !in held then held
      else (held - {mem})[answer := Grant(size, held[mem].align, Prefix(held[mem].bytes, size))]
    case Write(mem, offset, value) =>
      if mem !in held || held[mem].size <= offset then held
      else held[mem := held[mem].(bytes := held[mem].bytes[offset := value])]
  }

  function Replay(held: map<int, Grant>, requests: seq<Request>, answers: seq<int>): map<int, Grant>
    requires |answers| == |requests|
    decreases |requests|
  {
    if requests == [] then held
    else
      var n := |requests| - 1;
      Step(Replay(held, requests[..n], answers[..n]), requests[n], answers[n])
  }

  /** An address returned is new, or that of the block resized. */
  predicate AnswerOk(held: map<int, Grant>, request: Request, answer: int) {
    match request
    case Alloc(size, align) => answer == 0 || answer !in held
    case AllocZeroed(size, align) => answer == 0 || answer !in held
    case Resize(mem, _) => answer == 0 || (mem in held && (answer == mem || answer !in held))
    case _ => answer == 0
  }

  ghost predicate Answered(held: map<int, Grant>, requests: seq<Request>, answers: seq<int>)
    requires |answers| == |requests|
  {
    forall i :: 0 <= i < |requests| ==> AnswerOk(Replay(held, requests[..i], answers[..i]), requests[i], answers[i])
  }

  /** A request that is to be served: in words, with a power of two for alignment, and on a block held. */
  ghost predicate Proper(held: map<int, Grant>, request: Request) {
    match request
    case Alloc(size, align) => size < W && 0 < align < W && PowerOfTwo(align)
    case AllocZeroed(size, align) => size < W && 0 < align < W && PowerOfTwo(align)
    case Resize(mem, size) => mem in held && size < W
    case _ => false
  }

  /** What a proper request asks of `dlmalloc`. */
  function DemandOf(held: map<int, Grant>, request: Request): nat {
    match request
    case Alloc(size, align) => Demand(AtLeastOne(size), align)
    case AllocZeroed(size, align) => Demand(AtLeastOne(size), align)
    case Resize(mem, size) => if mem in held then Demand(AtLeastOne(size), held[mem].align) else 0
    case _ => 0
  }

  /** Refused only if improper, or beyond what the system can give from that break on. */
  ghost predicate RefusalOk(held: map<int, Grant>, request: Request, answer: int, brk: nat) {
    Proper(held, request) && answer == 0 ==> OutOfReach(DemandOf(held, request), brk)
  }

  ghost predicate FairlyRefused(held: map<int, Grant>, requests: seq<Request>, answers: seq<int>, brk: nat)
    requires |answers| == |requests|
  {
    forall i :: 0 <= i < |requests| ==> RefusalOk(Replay(held, requests[..i], answers[..i]), requests[i], answers[i], brk)
  }

  lemma {:induction false} NoRequests(held: map<int, Grant>, brk: nat)
    ensures Answered(held, [], []) && FairlyRefused(held, [], [], brk) && Replay(held, [], []) == held
  {
  }

  lemma {:induction false} LaterReach(bytes: nat, brk: nat, later: nat)
    requires brk <= later
    ensures OutOfReach(bytes, brk) ==> OutOfReach(bytes, later)
  {
    hide PageNeed, RequestSize;
  }

  /** A prefix of a prefix. */
  lemma {:induction false} Fronts<T>(s: seq<T>, x: T)
    ensures forall i :: 0 <= i <= |s| ==> (s + [x])[..i] == s[..i]
  {
  }

  lemma {:induction false} ReplayFurther(held: map<int, Grant>, requests: seq<Request>, answers: seq<int>, request: Request, answer: int)
    requires |answers| == |requests|
    ensures Replay(held, requests + [request], answers + [answer]) == Step(Replay(held, requests, answers), request, answer)
  {
    hide Step;
    var rs, xs := requests + [request], answers + [answer];
    assert rs[..|requests|] == requests && xs[..|requests|] == answers;
  }

  /** One more request. */
  lemma {:induction false} AnsweredFurther(held: map<int, Grant>, requests: seq<Request>, answers: seq<int>,
                                           request: Request, answer: int)
    requires |answers| == |requests| && Answered(held, requests, answers)
    requires AnswerOk(Replay(held, requests, answers), request, answer)
    ensures Answered(held, requests + [request], answers + [answer])
    ensures Replay(held, requests + [request], answers + [answer]) == Step(Replay(held, requests, answers), request, answer)
  {
    hide AnswerOk, Step, Replay;
    ReplayFurther(held, requests, answers, request, answer);
    Fronts(requests, request);
    Fronts(answers, answer);
    var n := |requests|;
    assert requests[..n] == requests && answers[..n] == answers;
    forall i | 0 <= i < n + 1
      ensures AnswerOk(Replay(held, (requests + [request])[..i], (answers + [answer])[..i]), (requests + [request])[i], (answers + [answer])[i])
    {
      if i < n { assert requests[i] == (requests + [request])[i]; }
    }
  }

  lemma {:induction false} RefusedFurther(held: map<int, Grant>, requests: seq<Request>, answers: seq<int>,
                                          request: Request, answer: int, brk: nat, later: nat)
    requires |answers| == |requests| && FairlyRefused(held, requests, answers, brk) && brk <= later
    requires RefusalOk(Replay(held, requests, answers), request, answer, later)
    ensures FairlyRefused(held, requests + [request], answers + [answer], later)
  {
    hide Proper, Step, DemandOf, Replay, PageNeed, RequestSize;
    Fronts(requests, request);
    Fronts(answers, answer);
    var n := |requests|;
    assert requests[..n] == requests && answers[..n] == answers;
    forall i | 0 <= i < n + 1
      ensures RefusalOk(Replay(held, (requests + [request])[..i], (answers + [answer])[..i]), (requests + [request])[i], (answers + [answer])[i], later)
    {
      if i < n { assert RefusalOk(Replay(held, requests[..i], answers[..i]), requests[i], answers[i], brk); }
    }
  }

  // ---------- what is known of a byte ----------

  /** The block at m is held, and its byte at offset is known to be value. */
  predicate Knows(held: map<int, Grant>, m: int, offset: nat, value: nat) {
    m in held && offset < held[m].size && offset in held[m].bytes && held[m].bytes[offset] == value
  }

  /** Where the byte at offset of the block at m is after one more request, if it is as before. */
  function Follow(m: int, offset: nat, request: Request, answer: int): Option<int> {
    match request
    case Release(mem) => if mem == m then None else Some(m)
    case Resize(mem, size) =>
      if mem != m || answer == 0 then Some(m) else if offset < size then Some(answer) else None
    case Write(mem, at, _) => if mem == m && at == offset then None else Some(m)
    case _ => Some(m)
  }

  /** Where it is after all requests behind the first k, unless it was given up, cut off or overwritten. */
  function Traced(requests: seq<Request>, answers: seq<int>, k: nat, m: int, offset: nat): Option<int>
    requires k <= |requests| == |answers|
    decreases |requests|
  {
    var n := |requests| - 1;
    if k == |requests| then Some(m)
    else
      match Traced(requests[..n], answers[..n], k, m, offset)
      case None => None
      case Some(now) => Follow(now, offset, requests[n], answers[n])
  }

  lemma {:induction false} StepKnows(held: map<int, Grant>, request: Request, answer: int, m: int, offset: nat, value: nat)
    requires AnswerOk(held, request, answer) && Knows(held, m, offset, value) && Follow(m, offset, request, answer).Some?
    ensures Knows(Step(held, request, answer), Follow(m, offset, request, answer).value, offset, value)
  {
  }

  /** What is known of a byte stays known, wherever resizing takes it. */
  lemma {:induction false} StillKnown(held: map<int, Grant>, requests: seq<Request>, answers: seq<int>, k: nat,
                                      m: int, offset: nat, value: nat)
    requires k <= |requests| == |answers| && Answered(held, requests, answers)
    requires Knows(Replay(held, requests[..k], answers[..k]), m, offset, value) && Traced(requests, answers, k, m, offset).Some?
    ensures Knows(Replay(held, requests, answers), Traced(requests, answers, k, m, offset).value, offset, value)
    decreases |requests|
  {
    hide Knows, Follow, Step, AnswerOk, Answered, Replay;
    if k == |requests| {
      assert requests[..k] == requests && answers[..k] == answers;
    } else {
      var n := |requests| - 1;
      var rs, xs := requests[..n], answers[..n];
      assert rs[..k] == requests[..k] && xs[..k] == answers[..k];
      assert requests == rs + [requests[n]] && answers == xs + [answers[n]];
      ReplayFurther(held, rs, xs, requests[n], answers[n]);
      AnsweredFront(held, requests, answers);
      StillKnown(held, rs, xs, k, m, offset, value);
      StepKnows(Replay(held, rs, xs), requests[n], answers[n], Traced(rs, xs, k, m, offset).value, offset, value);
    }
  }

  lemma {:induction false} AnsweredFront(held: map<int, Grant>, requests: seq<Request>, answers: seq<int>)
    requires |answers| == |requests| > 0 && Answered(held, requests, answers)
    ensures var n := |requests| - 1;
            Answered(held, requests[..n], answers[..n]) && AnswerOk(Replay(held, requests[..n], answers[..n]), requests[n], answers[n])
  {
    hide AnswerOk, Replay;
    var n := |requests| - 1;
    var rs, xs := requests[..n], answers[..n];
    forall i | 0 <= i < n
      ensures AnswerOk(Replay(held, rs[..i], xs[..i]), rs[i], xs[i])
    {
      assert rs[..i] == requests[..i] && xs[..i] == answers[..i] && rs[i] == requests[i];
    }
  }

  /** The last value written to a byte that is still there is the one known. */
  lemma {:induction false} LastWritten(held: map<int, Grant>, requests: seq<Request>, answers: seq<int>, k: nat)
    requires k < |requests| == |answers| && Answered(held, requests, answers) && requests[k].Write?
    requires var h := Replay(held, requests[..k], answers[..k]); requests[k].mem in h && requests[k].offset < h[requests[k].mem].size
    ensures var r := requests[k];
            var now := Traced(requests, answers, k + 1, r.mem, r.offset);
            now.Some? ==> Knows(Replay(held, requests, answers), now.value, r.offset, r.value)
  {
    var r := requests[k];
    assert requests[..k + 1][..k] == requests[..k] && answers[..k + 1][..k] == answers[..k];
    assert Knows(Replay(held, requests[..k + 1], answers[..k + 1]), r.mem, r.offset, r.value);
    hide Replay, Answered, Knows;
    if Traced(requests, answers, k + 1, r.mem, r.offset).Some? {
      StillKnown(held, requests, answers, k + 1, r.mem, r.offset, r.value);
    }
  }

  /** A byte of a zeroed block that is still there, and was not written, is known to be zero. */
  lemma {:induction false} LastZeroed(held: map<int, Grant>, requests: seq<Request>, answers: seq<int>, k: nat, offset: nat)
    requires k < |requests| == |answers| && Answered(held, requests, answers)
    requires requests[k].AllocZeroed? && answers[k] != 0 && offset < requests[k].size
    ensures var now := Traced(requests, answers, k + 1, answers[k], offset);
            now.Some? ==> Knows(Replay(held, requests, answers), now.value, offset, 0)
  {
    assert requests[..k + 1][..k] == requests[..k] && answers[..k + 1][..k] == answers[..k];
    assert Knows(Replay(held, requests[..k + 1], answers[..k + 1]), answers[k], offset, 0);
    hide Replay, Answered, Knows;
    if Traced(requests, answers, k + 1, answers[k], offset).Some? {
      StillKnown(held, requests, answers, k + 1, answers[k], offset, 0);
    }
  }
}
