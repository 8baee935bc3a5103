/** The worker behind a Response or Subscribe socket: one aio, one callback, four states. */
module AioWorkers {
  import opened Bytes

  datatype State = INIT | RECV | SEND | ERROR

  datatype Operation = Receive | Send | Sleep

  const NNG_ECLOSED := 7
  const NNG_ECANCELED := 20

  /** What the user's callback leaves: no reply, or one, with what appending it to the message gives. */
  datatype Reply = NoReply | Reply(appendRv: int)

  /** What can be seen of a worker. */
  datatype Happening =
    | Entered(rv: int, stopping: bool)
    | Called(reply: Reply)
    | Issued(operation: Operation)

  /** Entering with a canceled or closed aio, or once `stop` was called, ends the worker. */
  predicate Ends(h: Happening) {
    h.Entered? && (h.rv == NNG_ECANCELED || h.rv == NNG_ECLOSED || h.stopping)
  }

  predicate Successful(h: Happening) {
    h == Entered(0, false)
  }

  /** Between two operations the first one completed: never two are outstanding. */
  ghost predicate OneAtATime(t: seq<Happening>) {
    forall i, j :: 0 <= i < j < |t| && t[i].Issued? && t[j].Issued? ==> exists k :: i < k < j && t[k].Entered?
  }

  /** A send answers the receive right before it, with a reply that the callback gave for what was received. */
  predicate Answers(t: seq<Happening>, i: nat)
    requires i < |t|
  {
    t[i] == Issued(Send) ==>
      i >= 3 && t[i - 1] == Called(Reply(0)) && Successful(t[i - 2]) && t[i - 3] == Issued(Receive)
  }

  ghost predicate SendsAnswer(t: seq<Happening>) {
    forall i: nat :: i < |t| ==> Answers(t, i)
  }

  /** The callback is called for a successful receive only, and what it leaves decides what is issued next. */
  predicate Decides(t: seq<Happening>, i: nat)
    requires i < |t|
  {
    t[i].Called? ==>
      i >= 2 && Successful(t[i - 1]) && t[i - 2] == Issued(Receive) && i + 1 < |t| &&
      t[i + 1] == Issued(if t[i].reply.NoReply? then Receive else if t[i].reply.appendRv == 0 then Send else Sleep)
  }

  ghost predicate CallsDecide(t: seq<Happening>) {
    forall i: nat :: i < |t| ==> Decides(t, i)
  }

  /** What an entry leads to, by its code and the operation that completed: a successful receive calls the callback. */
  predicate Leads(t: seq<Happening>, i: nat, callback: bool)
    requires i < |t|
  {
    t[i].Entered? && !Ends(t[i]) ==>
      i + 1 < |t| &&
      if t[i].rv != 0 then t[i + 1] == Issued(Sleep)
      else if callback && i > 0 && t[i - 1] == Issued(Receive) then t[i + 1].Called?
      else t[i + 1] == Issued(Receive)
  }

  ghost predicate EntriesLead(t: seq<Happening>, callback: bool) {
    forall i: nat :: i < |t| ==> Leads(t, i, callback)
  }

  /** Once the worker has ended, nothing happens. */
  ghost predicate EndsQuietly(t: seq<Happening>) {
    forall i :: 0 <= i < |t| && Ends(t[i]) ==> i == |t| - 1
  }

  ghost predicate Good(t: seq<Happening>, callback: bool) {
    OneAtATime(t) && SendsAnswer(t) && CallsDecide(t) && EntriesLead(t, callback) && EndsQuietly(t)
  }

  /** The operation that nng has, read off what happened. */
  function Outstanding(t: seq<Happening>): Option<Operation> {
    if t != [] && t[|t| - 1].Issued? then Some(t[|t| - 1].operation) else None
  }

  /** What one entry adds when operation `last` completed, or none at the start. */
  predicate Round(last: Option<Operation>, callback: bool, r: seq<Happening>) {
    r != [] && r[0].Entered? &&
    if Ends(r[0]) then |r| == 1
    else if r[0].rv != 0 then r == [r[0], Issued(Sleep)]
    else if callback && last == Some(Receive) then
      |r| == 3 && r[1].Called? &&
      r[2] == Issued(if r[1].reply.NoReply? then Receive else if r[1].reply.appendRv == 0 then Send else Sleep)
    else r == [r[0], Issued(Receive)]
  }

  lemma RoundApart(t: seq<Happening>, callback: bool, r: seq<Happening>)
    requires OneAtATime(t) && Round(Outstanding(t), callback, r)
    ensures OneAtATime(t + r)
  {
    var u := t + r;
    assert u[|t|] == r[0];
    forall i, j | 0 <= i < j < |u| && u[i].Issued? && u[j].Issued?
      ensures exists k :: i < k < j && u[k].Entered?
    {
      if j < |t| {
        assert t[i].Issued? && t[j].Issued?;
        var k :| i < k < j && t[k].Entered?;
        assert u[k].Entered?;
      } else {
        assert u[j] == r[j - |t|];
        IssuedLast(t, callback, r, j);
        if i >= |t| {
          IssuedLast(t, callback, r, i);
        }
      }
    }
  }

  lemma IssuedLast(t: seq<Happening>, callback: bool, r: seq<Happening>, i: nat)
    requires Round(Outstanding(t), callback, r) && |t| <= i < |t + r| && (t + r)[i].Issued?
    ensures i == |t + r| - 1
  {
    assert (t + r)[i] == r[i - |t|];
  }

  lemma RoundAnswers(t: seq<Happening>, callback: bool, r: seq<Happening>)
    requires SendsAnswer(t) && Round(Outstanding(t), callback, r)
    ensures SendsAnswer(t + r)
  {
    var u := t + r;
    forall i: nat | i < |u|
      ensures Answers(u, i)
    {
      if i < |t| {
        assert Answers(t, i);
      } else {
        assert u[i] == r[i - |t|];
        assert |t| > 0 ==> u[|t| - 1] == t[|t| - 1];
      }
    }
  }

  lemma RoundDecides(t: seq<Happening>, callback: bool, r: seq<Happening>)
    requires CallsDecide(t) && Round(Outstanding(t), callback, r)
    ensures CallsDecide(t + r)
  {
    var u := t + r;
    forall i: nat | i < |u|
      ensures Decides(u, i)
    {
      if i < |t| {
        assert Decides(t, i);
      } else {
        assert u[i] == r[i - |t|];
        assert |t| > 0 ==> u[|t| - 1] == t[|t| - 1];
      }
    }
  }

  lemma RoundLeads(t: seq<Happening>, callback: bool, r: seq<Happening>)
    requires EntriesLead(t, callback) && EndsQuietly(t) && (t == [] || Outstanding(t).Some?)
    requires Round(Outstanding(t), callback, r)
    ensures EntriesLead(t + r, callback) && EndsQuietly(t + r)
  {
    var u := t + r;
    forall i: nat | i < |u|
      ensures Leads(u, i, callback) && (Ends(u[i]) ==> i == |u| - 1)
    {
      if i < |t| {
        assert Leads(t, i, callback);
        assert Ends(u[i]) ==> i == |t| - 1;
      } else {
        assert u[i] == r[i - |t|];
        assert |t| > 0 ==> u[|t| - 1] == t[|t| - 1];
      }
    }
  }

  /** A round keeps all that is promised of a run. */
  lemma RoundGood(t: seq<Happening>, callback: bool, r: seq<Happening>)
    requires Good(t, callback) && (t == [] || Outstanding(t).Some?) && Round(Outstanding(t), callback, r)
    ensures Good(t + r, callback)
  {
    hide OneAtATime, SendsAnswer, CallsDecide, EntriesLead, EndsQuietly, Round;
    RoundApart(t, callback, r);
    RoundAnswers(t, callback, r);
    RoundDecides(t, callback, r);
    RoundLeads(t, callback, r);
  }

  class AioWorker {
    var state: State
    var stopping: bool
    const callback: bool
    /** What nng has outstanding on the aio. */
    var outstanding: Option<Operation>
    ghost var trace: seq<Happening>

    ghost predicate Valid()
      reads this
    {
      Good(trace, callback) && outstanding == Outstanding(trace) && Agrees()
    }

    /** RECV, SEND and ERROR mean that a receive, a send and a sleep are outstanding; a worker that has ended has
        nothing outstanding. */
    ghost predicate Agrees()
      reads this
    {
      if trace == [] then state == INIT
      else match outstanding {
        case Some(operation) => state == (match operation case Receive => RECV case Send => SEND case Sleep => ERROR)
        case None => Ends(trace[|trace| - 1])
      }
    }

    constructor (callback: bool)
      ensures Valid() && trace == [] && state == INIT && !stopping && this.callback == callback
    {
      state, stopping, outstanding, trace := INIT, false, None, [];
      this.callback := callback;
    }

    method Stop()
      requires Valid()
      modifies this`stopping
      ensures Valid() && stopping
    {
      stopping := true;
    }

    /** Starts an operation: the aio must not have one. */
    method Issue(operation: Operation)
      requires outstanding == None
      modifies this`outstanding, this`trace
      ensures outstanding == Some(operation) && trace == old(trace) + [Issued(operation)]
    {
      outstanding := Some(operation);
      trace := trace + [Issued(operation)];
    }

    /** The callback passes the message on, and the reply, when there is one, is sent. */
    method Answer(reply: Reply)
      requires outstanding == None
      modifies this`state, this`outstanding, this`trace
      ensures outstanding.Some?
      ensures trace == old(trace) + (if callback then [Called(reply)] else []) + [Issued(outstanding.value)]
      ensures if !callback || reply.NoReply? then state == RECV && outstanding == Some(Receive)
        else if reply.appendRv == 0 then state == SEND && outstanding == Some(Send)
        else state == ERROR && outstanding == Some(Sleep)
    {
      var left := NoReply;
      if callback {
        left := reply;
        trace := trace + [Called(reply)];
      }
      if left.Reply? {
        if left.appendRv != 0 {
          state := ERROR;
          Issue(Sleep);
          return;
        }
        state := SEND;
        Issue(Send);
      } else {
        state := RECV;
        Issue(Receive);
      }
    }

    /** `rv` is the aio's result. */
    method Process(rv: int, reply: Reply, ghost last: Option<Operation>)
      requires outstanding == None
      requires match last
        case None => state == INIT
        case Some(Receive) => state == RECV
        case Some(Send) => state == SEND
        case Some(Sleep) => state == ERROR
      modifies this`state, this`outstanding, this`trace
      ensures |trace| > |old(trace)| && trace == old(trace) + trace[|old(trace)|..]
      ensures Round(last, callback, trace[|old(trace)|..])
      ensures trace[|old(trace)|] == Entered(rv, stopping)
      ensures outstanding == Outstanding(trace) && Agrees()
    {
      ghost var before := trace;
      trace := trace + [Entered(rv, stopping)];
      if rv != 0 || stopping {
        if rv == NNG_ECANCELED || rv == NNG_ECLOSED || stopping {
          return;
        } else if rv != 0 {
          state := ERROR;
          Issue(Sleep);
          return;
        }
      }
      match state
      case INIT =>
        state := RECV;
        Issue(Receive);
      case RECV =>
        Answer(reply);
      case SEND | ERROR =>
        state := RECV;
        Issue(Receive);
    }

    /** The aio is new, so its result is 0. */
    method Start(reply: Reply)
      requires Valid() && trace == []
      modifies this`state, this`outstanding, this`trace
      ensures Valid() && trace != []
    {
      Process(0, reply, None);
      RoundGood([], callback, trace);
    }

    /** nng has completed the outstanding operation and calls back. */
    method ProcessWrapper(rv: int, reply: Reply)
      requires Valid() && outstanding.Some?
      modifies this`state, this`outstanding, this`trace
      ensures Valid() && |trace| > |old(trace)| && trace[..|old(trace)|] == old(trace)
      ensures trace[|old(trace)|] == Entered(rv, stopping)
    {
      ghost var last := outstanding;
      outstanding := None;
      Process(rv, reply, last);
      RoundGood(old(trace), callback, trace[|old(trace)|..]);
    }
  }

  datatype Event = Completion(rv: int, reply: Reply) | Stopping

  /** One `start`, then completions with any code and any reply, and `stop` at any time. */
  method Run(callback: bool, stopFirst: bool, first: Reply, events: seq<Event>) returns (worker: AioWorker)
    ensures worker.Valid() && worker.callback == callback && worker.trace != []
  {
    worker := new AioWorker(callback);
    if stopFirst {
      worker.Stop();
    }
    worker.Start(first);
    for i := 0 to |events|
      invariant fresh(worker) && worker.Valid() && worker.callback == callback && worker.trace != []
    {
      match events[i]
      case Stopping =>
        worker.Stop();
      case Completion(rv, reply) =>
        if worker.outstanding.Some? {
          worker.ProcessWrapper(rv, reply);
        }
    }
  }
}
