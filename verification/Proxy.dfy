/**
 * The command handler as concurrent threads: the reading loop (thread 0) spawns a worker per accepted
 * request, refuses oversized ones itself, and exits once the wait group drains. Every reply goes through
 * one writer guarded by a mutex, which passes its bytes on in pieces of any size.
 */
module Proxy {
  import opened Common
  import opened BoundedLines

  datatype Reply = Reply(id: string, ok: bool, text: string)

  /** Where a thread is: working, waiting for the writer's lock, holding it with some bytes sent, past it, gone. */
  datatype Phase = Busy | Waiting(reply: Reply) | Writing(reply: Reply, sent: nat) | Replied | Done

  datatype Main = Reading | Draining | Exited

  datatype Sent = Sent(thread: nat, reply: Reply)

  datatype State = State(
    items: seq<Item>,
    next: nat,
    main: Main,
    threads: seq<Phase>,
    ids: seq<string>,
    waitGroup: int,
    holder: Option<nat>,
    out: string,
    replies: seq<Sent>)

  datatype Event =
    | TakeItem(message: string)
    | LeaveLoop
    | Compute(t: nat, ok: bool, text: string)
    | Lock(t: nat)
    | Send(t: nat, bytes: nat)
    | Unlock(t: nat)
    | Finish(t: nat)
    | Exit

  function Initial(items: seq<Item>): State {
    State(items, 0, Reading, [Busy], [""], 0, None, "", [])
  }

  const NEWLINE := '\n'

  function Line(encode: Reply -> string, r: Reply): string {
    encode(r) + [NEWLINE]
  }

  function SetPhase(s: State, t: nat, p: Phase): State
    requires t < |s.threads|
  {
    s.(threads := s.threads[t := p])
  }

  predicate ReaderFree(s: State) {
    s.main == Reading && s.threads != [] && s.threads[0] == Busy
  }

  function Take(s: State, message: string): State
    requires ReaderFree(s) && s.next < |s.items|
  {
    var s' := s.(next := s.next + 1);
    match s.items[s.next]
    case Accept(id) => s'.(threads := s.threads + [Busy], ids := s.ids + [id], waitGroup := s.waitGroup + 1)
    case Refuse(id) => SetPhase(s', 0, Waiting(Reply(id, false, message)))
    case Skip => s'
  }

  function Step(encode: Reply -> string, s: State, e: Event): State {
    if s.main == Exited then s
    else
      match e
      case TakeItem(message) => if ReaderFree(s) && s.next < |s.items| then Take(s, message) else s
      case LeaveLoop => if ReaderFree(s) then s.(main := Draining) else s
      case Compute(t, ok, text) =>
        if 0 < t < |s.threads| && t < |s.ids| && s.threads[t] == Busy
        then SetPhase(s, t, Waiting(Reply(s.ids[t], ok, text))) else s
      case Lock(t) =>
        if t < |s.threads| && s.threads[t].Waiting? && s.holder == None
        then SetPhase(s, t, Writing(s.threads[t].reply, 0)).(holder := Some(t)) else s
      case Send(t, bytes) => if CanSend(encode, s, t, bytes) then Sending(encode, s, t, bytes) else s
      case Unlock(t) =>
        if AllSent(encode, s, t)
        then SetPhase(s, t, if t == 0 then Busy else Replied).(
          holder := None, replies := s.replies + [Sent(t, s.threads[t].reply)]) else s
      case Finish(t) =>
        if 0 < t < |s.threads| && s.threads[t] == Replied
        then SetPhase(s, t, Done).(waitGroup := s.waitGroup - 1) else s
      case Exit => if s.main == Draining && s.waitGroup == 0 then s.(main := Exited) else s
  }

  predicate CanSend(encode: Reply -> string, s: State, t: nat, bytes: nat) {
    && t < |s.threads|
    && s.threads[t].Writing?
    && s.threads[t].sent + bytes <= |Line(encode, s.threads[t].reply)|
  }

  function Sending(encode: Reply -> string, s: State, t: nat, bytes: nat): State
    requires CanSend(encode, s, t, bytes)
  {
    var p := s.threads[t];
    SetPhase(s, t, Writing(p.reply, p.sent + bytes)).(
      out := s.out + Line(encode, p.reply)[p.sent..p.sent + bytes])
  }

  predicate AllSent(encode: Reply -> string, s: State, t: nat) {
    t < |s.threads| && s.threads[t].Writing? && s.threads[t].sent == |Line(encode, s.threads[t].reply)|
  }

  function Run(encode: Reply -> string, s: State, es: seq<Event>): State {
    if es == [] then s else Step(encode, Run(encode, s, es[..|es| - 1]), es[|es| - 1])
  }

  // ---------------------------------------------------------------- mutual exclusion and framing

  ghost predicate Exclusive(encode: Reply -> string, s: State) {
    && s.threads != [] && |s.ids| == |s.threads|
    && (s.holder.Some? ==> s.holder.value < |s.threads|)
    && (forall t :: 0 <= t < |s.threads| ==> (s.threads[t].Writing? <==> s.holder == Some(t)))
    && (s.holder.Some? ==>
          var p := s.threads[s.holder.value]; p.Writing? && p.sent <= |Line(encode, p.reply)|)
    && !s.threads[0].Replied? && !s.threads[0].Done?
    && (s.main != Reading ==> s.threads[0] == Busy)
  }

  lemma {:induction false} StepKeepsExclusive(encode: Reply -> string, s: State, e: Event)
    requires Exclusive(encode, s)
    ensures Exclusive(encode, Step(encode, s, e))
  {}

  ghost function Framed(encode: Reply -> string, replies: seq<Sent>): string {
    if replies == [] then ""
    else Framed(encode, replies[..|replies| - 1]) + Line(encode, replies[|replies| - 1].reply)
  }

  /** The part of the current holder's line already passed on. */
  ghost function Partial(encode: Reply -> string, s: State): string
    requires Exclusive(encode, s)
  {
    if s.holder.None? then ""
    else
      var p := s.threads[s.holder.value];
      Line(encode, p.reply)[..p.sent]
  }

  ghost predicate WellFramed(encode: Reply -> string, s: State) {
    Exclusive(encode, s) && s.out == Framed(encode, s.replies) + Partial(encode, s)
  }

  lemma {:induction false} SendKeepsFraming(encode: Reply -> string, s: State, t: nat, bytes: nat)
    requires WellFramed(encode, s) && CanSend(encode, s, t, bytes)
    requires Exclusive(encode, Sending(encode, s, t, bytes))
    ensures WellFramed(encode, Sending(encode, s, t, bytes))
  {
    var p := s.threads[t];
    var line, whole := Line(encode, p.reply), Framed(encode, s.replies);
    assert line[..p.sent] + line[p.sent..p.sent + bytes] == line[..p.sent + bytes];
    assert whole + line[..p.sent] + line[p.sent..p.sent + bytes]
        == whole + (line[..p.sent] + line[p.sent..p.sent + bytes]);
  }

  lemma {:induction false} UnlockKeepsFraming(encode: Reply -> string, s: State, t: nat)
    requires WellFramed(encode, s) && s.main != Exited && AllSent(encode, s, t)
    requires Exclusive(encode, Step(encode, s, Unlock(t)))
    ensures WellFramed(encode, Step(encode, s, Unlock(t)))
  {
    var s' := Step(encode, s, Unlock(t));
    var line := Line(encode, s.threads[t].reply);
    assert line[..|line|] == line;
    assert s'.replies[..|s'.replies| - 1] == s.replies;
    assert s'.out + "" == s'.out;
  }

  lemma {:induction false} StepKeepsFraming(encode: Reply -> string, s: State, e: Event)
    requires WellFramed(encode, s)
    ensures WellFramed(encode, Step(encode, s, e))
  {
    StepKeepsExclusive(encode, s, e);
    if e.Send? && s.main != Exited && CanSend(encode, s, e.t, e.bytes) {
      SendKeepsFraming(encode, s, e.t, e.bytes);
    } else if e.Unlock? && s.main != Exited && AllSent(encode, s, e.t) {
      UnlockKeepsFraming(encode, s, e.t);
    } else {
      OthersKeepOutput(encode, s, e);
    }
  }

  lemma {:induction false} OthersKeepOutput(encode: Reply -> string, s: State, e: Event)
    requires Exclusive(encode, s) && Exclusive(encode, Step(encode, s, e))
    requires s.main == Exited
          || (!(e.Send? && CanSend(encode, s, e.t, e.bytes)) && !(e.Unlock? && AllSent(encode, s, e.t)))
    ensures var s' := Step(encode, s, e);
            s'.out == s.out && s'.replies == s.replies && Partial(encode, s') == Partial(encode, s)
  {}

  /** In every reachable state at most one thread writes, and the output is whole reply lines followed by
      a piece of one line at most: replies never interleave. */
  lemma {:induction false} RepliesNeverInterleave(encode: Reply -> string, items: seq<Item>, es: seq<Event>)
    ensures WellFramed(encode, Run(encode, Initial(items), es))
  {
    if es != [] {
      RepliesNeverInterleave(encode, items, es[..|es| - 1]);
      StepKeepsFraming(encode, Run(encode, Initial(items), es[..|es| - 1]), es[|es| - 1]);
    }
  }

  // ---------------------------------------------------------------- the caller's side

  datatype Scanned = Scanned(lines: seq<string>, rest: string)

  /** What a reader of the output sees: the complete lines, and what follows the last newline. */
  function Scan(s: string): Scanned {
    if s == "" then Scanned([], "")
    else
      var before, c := Scan(s[..|s| - 1]), s[|s| - 1];
      if c == NEWLINE then Scanned(before.lines + [before.rest], "") else Scanned(before.lines, before.rest + [c])
  }

  lemma {:induction false} ScanText(s: string, text: string)
    requires NEWLINE !in text
    ensures Scan(s + text) == Scanned(Scan(s).lines, Scan(s).rest + text)
  {
    if text == "" {
      assert s + text == s;
      assert Scan(s).rest + text == Scan(s).rest;
    } else {
      var init, c := text[..|text| - 1], text[|text| - 1];
      assert NEWLINE !in init && c in text;
      ScanText(s, init);
      assert (s + text)[..|s + text| - 1] == s + init;
      assert Scan(s).rest + text == Scan(s).rest + init + [c];
    }
  }

  lemma {:induction false} ScanNewline(s: string)
    ensures Scan(s + [NEWLINE]) == Scanned(Scan(s).lines + [Scan(s).rest], "")
  {
    assert (s + [NEWLINE])[..|s|] == s;
  }

  ghost function Encoded(encode: Reply -> string, replies: seq<Sent>): seq<string> {
    if replies == [] then []
    else Encoded(encode, replies[..|replies| - 1]) + [encode(replies[|replies| - 1].reply)]
  }

  /** Splitting whole lines at newlines gives the encoded replies back, in order. */
  lemma {:induction false} LinesAreReplies(encode: Reply -> string, replies: seq<Sent>)
    requires forall r :: NEWLINE !in encode(r)
    ensures Scan(Framed(encode, replies)) == Scanned(Encoded(encode, replies), "")
  {
    if replies != [] {
      var init, last := replies[..|replies| - 1], replies[|replies| - 1];
      LinesAreReplies(encode, init);
      var before, text := Framed(encode, init), encode(last.reply);
      ScanText(before, text);
      ScanNewline(before + text);
      assert before + (text + [NEWLINE]) == before + text + [NEWLINE];
      assert "" + text == text;
    }
  }

  // ---------------------------------------------------------------- every request is answered once

  /** Something owed a reply: by a worker or by the reader, under an id. */
  datatype Ask = Ask(byWorker: bool, id: string)

  /** How often k was asked for by the given items, answered by the replies, and is still owed by the threads. */
  ghost function Asked(items: seq<Item>, k: Ask): nat {
    if items == [] then 0 else Asked(items[..|items| - 1], k) + AskedBy(items[|items| - 1], k)
  }

  ghost function AskedBy(item: Item, k: Ask): nat {
    match item
    case Accept(id) => if k == Ask(true, id) then 1 else 0
    case Refuse(id) => if k == Ask(false, id) then 1 else 0
    case Skip => 0
  }

  ghost function Answered(replies: seq<Sent>, k: Ask): nat {
    if replies == [] then 0
    else
      var last := replies[|replies| - 1];
      Answered(replies[..|replies| - 1], k) + if k == Ask(last.thread != 0, last.reply.id) then 1 else 0
  }

  ghost function OwedBy(t: nat, p: Phase, id: string, k: Ask): nat {
    match p
    case Busy => if t != 0 && k == Ask(true, id) then 1 else 0
    case Waiting(r) => if k == Ask(t != 0, r.id) then 1 else 0
    case Writing(r, _) => if k == Ask(t != 0, r.id) then 1 else 0
    case Replied => 0
    case Done => 0
  }

  ghost function Owed(threads: seq<Phase>, ids: seq<string>, k: Ask): nat
    requires |ids| == |threads|
  {
    if threads == [] then 0
    else
      var n := |threads| - 1;
      Owed(threads[..n], ids[..n], k) + OwedBy(n, threads[n], ids[n], k)
  }

  ghost function Unfinished(threads: seq<Phase>): nat {
    if |threads| <= 1 then 0
    else Unfinished(threads[..|threads| - 1]) + if threads[|threads| - 1] == Done then 0 else 1
  }

  lemma {:induction false} OwedUpdate(threads: seq<Phase>, ids: seq<string>, t: nat, p: Phase, k: Ask)
    requires |ids| == |threads| && t < |threads|
    ensures Owed(threads[t := p], ids, k)
         == Owed(threads, ids, k) - OwedBy(t, threads[t], ids[t], k) + OwedBy(t, p, ids[t], k)
  {
    var n := |threads| - 1;
    if t == n {
      assert threads[t := p][..n] == threads[..n];
    } else {
      OwedUpdate(threads[..n], ids[..n], t, p, k);
      assert threads[t := p][..n] == threads[..n][t := p];
    }
  }

  lemma {:induction false} UnfinishedUpdate(threads: seq<Phase>, t: nat, p: Phase)
    requires t < |threads|
    ensures Unfinished(threads[t := p])
         == Unfinished(threads) + if t == 0
             || ((p == Done) == (threads[t] == Done)) then 0 else if p == Done then -1 else 1
  {
    var n := |threads| - 1;
    if t == n {
      assert threads[t := p][..n] == threads[..n];
    } else {
      UnfinishedUpdate(threads[..n], t, p);
      assert threads[t := p][..n] == threads[..n][t := p];
    }
  }

  ghost predicate Accounted(s: State, k: Ask) {
    && |s.ids| == |s.threads| && s.next <= |s.items|
    && Asked(s.items[..s.next], k) == Answered(s.replies, k) + Owed(s.threads, s.ids, k)
    && s.waitGroup == Unfinished(s.threads)
    && (s.main == Exited ==> s.waitGroup == 0)
  }

  lemma {:induction false} SpawnOwes(threads: seq<Phase>, ids: seq<string>, id: string, k: Ask)
    requires |ids| == |threads| && threads != []
    ensures Owed(threads + [Busy], ids + [id], k) == Owed(threads, ids, k) + if k == Ask(true, id) then 1 else 0
    ensures Unfinished(threads + [Busy]) == Unfinished(threads) + 1
  {
    assert (threads + [Busy])[..|threads|] == threads && (ids + [id])[..|ids|] == ids;
  }

  lemma {:induction false} AskedNext(items: seq<Item>, next: nat, k: Ask)
    requires next < |items|
    ensures Asked(items[..next + 1], k) == Asked(items[..next], k) + AskedBy(items[next], k)
  {
    assert items[..next + 1][..next] == items[..next];
  }

  lemma {:induction false} AcceptKeepsAccount(s: State, id: string, message: string, k: Ask)
    requires Accounted(s, k) && ReaderFree(s) && s.next < |s.items| && s.items[s.next] == Accept(id)
    ensures Accounted(Take(s, message), k)
  {
    AskedNext(s.items, s.next, k);
    SpawnOwes(s.threads, s.ids, id, k);
  }

  lemma {:induction false} RefuseKeepsAccount(s: State, id: string, message: string, k: Ask)
    requires Accounted(s, k) && ReaderFree(s) && s.next < |s.items| && s.items[s.next] == Refuse(id)
    ensures Accounted(Take(s, message), k)
  {
    var p := Waiting(Reply(id, false, message));
    AskedNext(s.items, s.next, k);
    OwedUpdate(s.threads, s.ids, 0, p, k);
    UnfinishedUpdate(s.threads, 0, p);
  }

  lemma {:induction false} TakeKeepsAccount(s: State, message: string, k: Ask)
    requires Accounted(s, k) && ReaderFree(s) && s.next < |s.items|
    ensures Accounted(Take(s, message), k)
  {
    match s.items[s.next]
    case Accept(id) => AcceptKeepsAccount(s, id, message, k);
    case Refuse(id) => RefuseKeepsAccount(s, id, message, k);
    case Skip => AskedNext(s.items, s.next, k);
  }

  lemma {:induction false} AnsweredNext(replies: seq<Sent>, sent: Sent, k: Ask)
    ensures Answered(replies + [sent], k) == Answered(replies, k) + if k
        == Ask(sent.thread != 0, sent.reply.id) then 1 else 0
  {
    assert (replies + [sent])[..|replies|] == replies;
  }

  lemma {:induction false} UnlockKeepsAccount(encode: Reply -> string, s: State, t: nat, k: Ask)
    requires Accounted(s, k) && s.main != Exited && AllSent(encode, s, t)
    ensures Accounted(Step(encode, s, Unlock(t)), k)
  {
    var p := if t == 0 then Busy else Replied;
    OwedUpdate(s.threads, s.ids, t, p, k);
    UnfinishedUpdate(s.threads, t, p);
    AnsweredNext(s.replies, Sent(t, s.threads[t].reply), k);
  }

  lemma {:induction false} PhaseKeepsAccount(s: State, s': State, t: nat, p: Phase, k: Ask)
    requires Accounted(s, k) && s.main != Exited && s'.main == s.main
    requires t < |s.threads| && s'.threads == s.threads[t := p] && s'.ids == s.ids
    requires s'.items == s.items && s'.next == s.next && s'.replies == s.replies
    requires OwedBy(t, p, s.ids[t], k) == OwedBy(t, s.threads[t], s.ids[t], k)
    requires s.threads[t] != Done && s'.waitGroup == if t != 0 && p == Done then s.waitGroup - 1 else s.waitGroup
    ensures Accounted(s', k)
  {
    OwedUpdate(s.threads, s.ids, t, p, k);
    UnfinishedUpdate(s.threads, t, p);
  }

  lemma {:induction false} StartIsAccounted(items: seq<Item>, k: Ask)
    ensures Accounted(Initial(items), k)
  {
    assert items[..0] == [];
    assert [Busy][..0] == [];
  }

  lemma {:induction false} StepKeepsItems(encode: Reply -> string, s: State, e: Event)
    ensures Step(encode, s, e).items == s.items
  {}

  lemma {:induction false} StepKeepsAccount(encode: Reply -> string, s: State, e: Event, k: Ask)
    requires Accounted(s, k)
    ensures Accounted(Step(encode, s, e), k)
  {
    var s' := Step(encode, s, e);
    if s' != s {
      match e
      case TakeItem(message) => TakeKeepsAccount(s, message, k);
      case LeaveLoop =>
      case Compute(t, _, _) => PhaseKeepsAccount(s, s', t, s'.threads[t], k);
      case Lock(t) => PhaseKeepsAccount(s, s', t, s'.threads[t], k);
      case Send(t, _) => PhaseKeepsAccount(s, s', t, s'.threads[t], k);
      case Unlock(t) => UnlockKeepsAccount(encode, s, t, k);
      case Finish(t) => PhaseKeepsAccount(s, s', t, s'.threads[t], k);
      case Exit =>
    }
  }

  /** In every reachable state each request taken is answered or still owed by exactly one thread, and the
      wait group counts the unfinished workers. */
  lemma {:induction false} RequestsAreAccounted(encode: Reply -> string, items: seq<Item>, es: seq<Event>, k: Ask)
    ensures Accounted(Run(encode, Initial(items), es), k)
    ensures Run(encode, Initial(items), es).items == items
  {
    if es == [] {
      StartIsAccounted(items, k);
    } else {
      RequestsAreAccounted(encode, items, es[..|es| - 1], k);
      var before, e := Run(encode, Initial(items), es[..|es| - 1]), es[|es| - 1];
      StepKeepsAccount(encode, before, e, k);
      StepKeepsItems(encode, before, e);
    }
  }

  lemma {:induction false} NothingOwed(threads: seq<Phase>, ids: seq<string>, k: Ask)
    requires |ids| == |threads| && threads != [] && threads[0] == Busy && Unfinished(threads) == 0
    ensures Owed(threads, ids, k) == 0
    ensures forall t :: 0 < t < |threads| ==> threads[t] == Done
  {
    var n := |threads| - 1;
    if n > 0 {
      NothingOwed(threads[..n], ids[..n], k);
      forall t | 0 < t < |threads| ensures threads[t] == Done {
        if t < n {
          assert threads[t] == threads[..n][t];
        }
      }
    }
  }

  /** On exit every request taken has been answered exactly once, and the output is those replies, whole. */
  lemma {:induction false} ExitAnswersEverything(encode: Reply -> string, items: seq<Item>, es: seq<Event>, k: Ask)
    requires Run(encode, Initial(items), es).main == Exited
    ensures var s := Run(encode, Initial(items), es);
            && s.next <= |items|
            && Answered(s.replies, k) == Asked(items[..s.next], k)
            && s.out == Framed(encode, s.replies)
  {
    var s := Run(encode, Initial(items), es);
    RequestsAreAccounted(encode, items, es, k);
    RepliesNeverInterleave(encode, items, es);
    NothingOwed(s.threads, s.ids, k);
    assert s.holder == None;
    assert Framed(encode, s.replies) + "" == Framed(encode, s.replies);
  }

  // ---------------------------------------------------------------- what a reply says

  /** A worker's reply is what its handler computed, under the id of its request; the reader's own replies are
      refusals with the message of the line it had read. */
  ghost predicate Says(start: State, encode: Reply -> string, es: seq<Event>, ids: seq<string>, t: nat, r: Reply) {
    exists i :: 0 <= i < |es| && SaysAt(Run(encode, start, es[..i]), es[i], ids, t, r)
  }

  predicate SaysAt(before: State, e: Event, ids: seq<string>, t: nat, r: Reply) {
    if t == 0 then
      && e == TakeItem(r.text) && !r.ok && ReaderFree(before)
      && before.next < |before.items| && before.items[before.next] == Refuse(r.id)
    else
      && e == Compute(t, r.ok, r.text)
      && t < |ids| && r.id == ids[t] && t < |before.threads| && before.threads[t] == Busy
  }

  ghost predicate Honest(start: State, encode: Reply -> string, es: seq<Event>, s: State) {
    && (forall k :: 0 <= k < |s.replies| ==> Says(start, encode, es, s.ids, s.replies[k].thread, s.replies[k].reply))
    && (forall t :: 0 <= t < |s.threads| && (s.threads[t].Waiting? || s.threads[t].Writing?) ==>
          Says(start, encode, es, s.ids, t, s.threads[t].reply))
  }

  lemma {:induction false} SaidBefore(start: State, encode: Reply -> string, es: seq<Event>, e: Event,
                                      ids: seq<string>, more: seq<string>, t: nat, r: Reply)
    requires Says(start, encode, es, ids, t, r) && ids <= more
    ensures Says(start, encode, es + [e], more, t, r)
  {
    var i :| 0 <= i < |es| && SaysAt(Run(encode, start, es[..i]), es[i], ids, t, r);
    assert (es + [e])[..i] == es[..i] && (es + [e])[i] == es[i];
    assert SaysAt(Run(encode, start, (es + [e])[..i]), (es + [e])[i], more, t, r);
  }

  lemma {:induction false} SaysNow(start: State, encode: Reply -> string, es: seq<Event>, e: Event,
                                   ids: seq<string>, t: nat, r: Reply)
    requires SaysAt(Run(encode, start, es), e, ids, t, r)
    ensures Says(start, encode, es + [e], ids, t, r)
  {
    assert (es + [e])[..|es|] == es && (es + [e])[|es|] == e;
  }

  /** A step lets a thread that was waiting or writing keep its reply, and only here do replies arise. */
  lemma {:induction false} RepliesArise(encode: Reply -> string, s: State, e: Event, t: nat)
    requires var s' := Step(encode, s, e);
             |s.ids| == |s.threads| && t < |s'.threads| && (s'.threads[t].Waiting? || s'.threads[t].Writing?)
    ensures var s' := Step(encode, s, e);
            || (t < |s.threads| && (s.threads[t].Waiting? || s.threads[t].Writing?)
                && s'.threads[t].reply == s.threads[t].reply)
            || SaysAt(s, e, s'.ids, t, s'.threads[t].reply)
  {}

  lemma {:induction false} RepliesAreSent(encode: Reply -> string, s: State, e: Event)
    ensures var s' := Step(encode, s, e);
            && s.ids <= s'.ids
            && (s'.replies == s.replies
                || (e.Unlock? && e.t < |s.threads| && s.threads[e.t].Writing?
                    && s'.replies == s.replies + [Sent(e.t, s.threads[e.t].reply)]))
  {}

  lemma {:induction false} StepKeepsHonest(start: State, encode: Reply -> string, es: seq<Event>, e: Event)
    requires var s := Run(encode, start, es); |s.ids| == |s.threads| && Honest(start, encode, es, s)
    ensures Honest(start, encode, es + [e], Step(encode, Run(encode, start, es), e))
  {
    var s := Run(encode, start, es);
    var s' := Step(encode, s, e);
    RepliesAreSent(encode, s, e);
    forall k | 0 <= k < |s'.replies|
      ensures Says(start, encode, es + [e], s'.ids, s'.replies[k].thread, s'.replies[k].reply)
    {
      SaidBefore(start, encode, es, e, s.ids, s'.ids, s'.replies[k].thread, s'.replies[k].reply);
    }
    forall t | 0 <= t < |s'.threads| && (s'.threads[t].Waiting? || s'.threads[t].Writing?)
      ensures Says(start, encode, es + [e], s'.ids, t, s'.threads[t].reply)
    {
      RepliesArise(encode, s, e, t);
      if SaysAt(s, e, s'.ids, t, s'.threads[t].reply) {
        SaysNow(start, encode, es, e, s'.ids, t, s'.threads[t].reply);
      } else {
        SaidBefore(start, encode, es, e, s.ids, s'.ids, t, s'.threads[t].reply);
      }
    }
  }

  /** How many replies thread t has sent. */
  ghost function RepliesOf(replies: seq<Sent>, t: nat): nat {
    if replies == [] then 0
    else RepliesOf(replies[..|replies| - 1], t) + if replies[|replies| - 1].thread == t then 1 else 0
  }

  /** A worker past its reply has sent exactly one; any other has sent none. */
  ghost predicate RepliedOnce(s: State) {
    forall t: nat :: t > 0 ==>
      RepliesOf(s.replies, t)
        == if t < |s.threads| && (s.threads[t] == Replied || s.threads[t] == Done) then 1 else 0
  }

  lemma {:induction false} RepliesOfNext(replies: seq<Sent>, sent: Sent, t: nat)
    ensures RepliesOf(replies + [sent], t) == RepliesOf(replies, t) + if sent.thread == t then 1 else 0
  {
    assert (replies + [sent])[..|replies|] == replies;
  }

  lemma {:induction false} StepKeepsRepliedOnce(encode: Reply -> string, s: State, e: Event)
    requires RepliedOnce(s)
    ensures RepliedOnce(Step(encode, s, e))
  {
    var s' := Step(encode, s, e);
    RepliesAreSent(encode, s, e);
    forall t: nat | t > 0
      ensures RepliesOf(s'.replies, t)
        == if t < |s'.threads| && (s'.threads[t] == Replied || s'.threads[t] == Done) then 1 else 0
    {
      assert RepliesOf(s.replies, t)
        == if t < |s.threads| && (s.threads[t] == Replied || s.threads[t] == Done) then 1 else 0;
      if s'.replies != s.replies {
        RepliesOfNext(s.replies, Sent(e.t, s.threads[e.t].reply), t);
      }
    }
  }

  lemma {:induction false} WorkersFollowItems(encode: Reply -> string, s: State, e: Event)
    requires s.next <= |s.items| && s.ids == [""] + Accepted(s.items[..s.next])
    ensures var s' := Step(encode, s, e);
            s'.next <= |s'.items| && s'.ids == [""] + Accepted(s'.items[..s'.next])
  {
    var s' := Step(encode, s, e);
    if s'.next != s.next {
      var taken := s.items[..s.next + 1];
      AcceptedLast(taken);
      assert taken[..s.next] == s.items[..s.next];
      assert Accepted([s.items[s.next]]) == if s.items[s.next].Accept? then [s.items[s.next].id] else [] by {
        assert [s.items[s.next]][1..] == [];
      }
      assert [""] + (Accepted(s.items[..s.next]) + Accepted([s.items[s.next]]))
          == ([""] + Accepted(s.items[..s.next])) + Accepted([s.items[s.next]]);
    }
  }

  ghost predicate Faithful(start: State, encode: Reply -> string, es: seq<Event>, s: State) {
    && s.next <= |s.items| && |s.threads| == |s.ids| && s.ids == [""] + Accepted(s.items[..s.next])
    && RepliedOnce(s) && Honest(start, encode, es, s)
  }

  lemma {:induction false} StepKeepsFaithful(start: State, encode: Reply -> string, es: seq<Event>, before: seq<Event>,
                                             s: State, s': State)
    requires es != [] && before == es[..|es| - 1] && s == Run(encode, start, before)
    requires Faithful(start, encode, before, s)
    requires s' == Step(encode, s, es[|es| - 1]) && |s'.threads| == |s'.ids|
    ensures Faithful(start, encode, es, s')
  {
    var e := es[|es| - 1];
    assert es == before + [e];
    WorkersFollowItems(encode, s, e);
    StepKeepsRepliedOnce(encode, s, e);
    StepKeepsHonest(start, encode, before, e);
  }

  lemma {:induction false} StartIsFaithful(encode: Reply -> string, items: seq<Item>)
    ensures Faithful(Initial(items), encode, [], Initial(items))
  {
    assert items[..0] == [];
  }

  /** Over every run: the workers are the accepted requests in order, each replies at most once, and what it
      says is what its handler computed, under its own request's id. */
  lemma {:induction false} RepliesSayWhatWasComputed(encode: Reply -> string, items: seq<Item>, es: seq<Event>)
    ensures var s := Run(encode, Initial(items), es);
            s.items == items && Faithful(Initial(items), encode, es, s)
  {
    RequestsAreAccounted(encode, items, es, Ask(true, ""));
    if es == [] {
      StartIsFaithful(encode, items);
    } else {
      var before := es[..|es| - 1];
      RepliesSayWhatWasComputed(encode, items, before);
      StepKeepsFaithful(Initial(items), encode, es, before, Run(encode, Initial(items), before),
                        Run(encode, Initial(items), es));
    }
  }

  // ---------------------------------------------------------------- no deadlock

  lemma {:induction false} AnUnfinished(threads: seq<Phase>) returns (t: nat)
    requires Unfinished(threads) > 0
    ensures 0 < t < |threads| && threads[t] != Done
  {
    var n := |threads| - 1;
    if threads[n] != Done {
      t := n;
    } else {
      t := AnUnfinished(threads[..n]);
    }
  }

  lemma {:induction false} HolderCanMove(encode: Reply -> string, s: State) returns (e: Event)
    requires Exclusive(encode, s) && s.main != Exited && s.holder.Some?
    ensures Step(encode, s, e) != s
  {
    var t := s.holder.value;
    var p := s.threads[t];
    e := if p.sent < |Line(encode, p.reply)| then Send(t, 1) else Unlock(t);
    assert Step(encode, s, e).threads[t] != p;
  }

  lemma {:induction false} WorkerCanMove(encode: Reply -> string, s: State, t: nat) returns (e: Event)
    requires Exclusive(encode, s) && s.main != Exited && s.holder.None?
    requires 0 < t < |s.threads| && s.threads[t] != Done
    ensures Step(encode, s, e) != s
  {
    var p := s.threads[t];
    e := if p == Busy then Compute(t, true, "") else if p == Replied then Finish(t) else Lock(t);
    assert Step(encode, s, e).threads[t] != p;
  }

  /** Draining never gets stuck: until the exit some thread can move. */
  lemma {:induction false} DrainNeverStalls(encode: Reply -> string, items: seq<Item>,
                                            es: seq<Event>) returns (e: Event)
    requires Run(encode, Initial(items), es).main == Draining
    ensures var s := Run(encode, Initial(items), es); Step(encode, s, e) != s
  {
    var s := Run(encode, Initial(items), es);
    RequestsAreAccounted(encode, items, es, Ask(true, ""));
    RepliesNeverInterleave(encode, items, es);
    if s.waitGroup == 0 {
      e := Exit;
    } else if s.holder.Some? {
      e := HolderCanMove(encode, s);
    } else {
      var t := AnUnfinished(s.threads);
      e := WorkerCanMove(encode, s, t);
    }
  }

  // ---------------------------------------------------------------- from input lines to replies

  lemma {:induction false} AcceptedLast(items: seq<Item>)
    requires items != []
    ensures var n := |items| - 1;
            Accepted(items) == Accepted(items[..n]) + Accepted([items[n]])
  {
    if |items| > 1 {
      var rest := items[1..];
      AcceptedLast(rest);
      assert rest[..|rest| - 1] == items[..|items| - 1][1..];
    } else {
      assert items == [items[0]] && items[..0] == [];
    }
  }

  lemma {:induction false} WorkersAnswerAccepted(items: seq<Item>, id: string)
    ensures Asked(items, Ask(true, id)) == multiset(Accepted(items))[id]
  {
    if items != [] {
      WorkersAnswerAccepted(items[..|items| - 1], id);
      AcceptedLast(items);
    }
  }

  /** What the reading loop makes of an input that arrives in the given pieces. */
  ghost function ItemsOf(decode: string -> Parsed, cuts: seq<seq<string>>, last: seq<string>, end: string,
                         limit: nat): seq<Item>
    requires Nonempty(cuts)
  {
    LinesSurviveCutting(cuts, last, end);
    Items(decode, Lines(Script(cuts, last, end)), limit)
  }

  /** However the input was fragmented, when the proxy has read it all and exited, its workers have replied
      under each id exactly as often as it was requested on a well-formed line within the limit. */
  lemma {:induction false} EveryRequestIsAnsweredOnce(encode: Reply -> string, decode: string -> Parsed,
                                                      cuts: seq<seq<string>>, last: seq<string>, end: string,
                                                      limit: nat, items: seq<Item>, es: seq<Event>, id: string)
    requires Nonempty(cuts) && items == ItemsOf(decode, cuts, last, end, limit)
    requires var s := Run(encode, Initial(items), es); s.main == Exited && s.next == |items|
    ensures Answered(Run(encode, Initial(items), es).replies, Ask(true, id))
         == multiset(Requests(decode, Texts(cuts) + [Concat(last)], limit))[id]
  {
    ExitAnswersEverything(encode, items, es, Ask(true, id));
    assert items[..|items|] == items;
    WorkersAnswerAccepted(items, id);
    FragmentationIsInvisible(decode, cuts, last, end, limit);
  }
}
