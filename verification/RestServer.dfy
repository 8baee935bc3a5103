/** The REST demo: HTTP requests are forwarded as REQ messages by jobs that are reused through a freelist. */
module RestServer {
  import opened Bytes

  // ------------------------------------------------------------ what is settled once

  /** Things handed to the server, numbered in order of arrival: what was done to each, and who holds each one that
      nothing was done to yet. `None` is a running handler that has not put the thing into a job. */
  datatype Account<T> = Account(done: seq<seq<T>>, owner: map<nat, Option<Job>>) {
    /** Everything is either held or was settled, and settled once. */
    ghost predicate Once() {
      (forall a <- owner :: a < |done|) &&
      forall a: nat :: a < |done| ==> |done[a]| == if a in owner then 0 else 1
    }

    /** No job holds two of them. */
    ghost predicate Apart() {
      forall a <- owner, b <- owner :: owner[a].Some? && owner[a] == owner[b] ==> a == b
    }

    function Open(holder: Option<Job>): Account<T> {
      Account(done + [[]], owner[|done| := holder])
    }

    function Give(a: nat, holder: Option<Job>): Account<T> {
      Account(done, owner[a := holder])
    }

    function Settle(a: nat, what: T): Account<T>
      requires a < |done|
    {
      Account(done[a := done[a] + [what]], owner - {a})
    }

    lemma OpenOnce(holder: Option<Job>)
      requires Once()
      ensures Open(holder).Once() && |done| !in owner
    {
    }

    lemma SettleOnce(a: nat, what: T)
      requires Once() && a in owner
      ensures a < |done| && Settle(a, what).Once()
    {
    }

    lemma GiveOnce(a: nat, job: Job)
      requires Once() && Apart() && a in owner && forall b <- owner :: owner[b] != Some(job)
      ensures Give(a, Some(job)).Once() && Give(a, Some(job)).Apart()
    {
    }
  }

  datatype Fate = Freed | HandedOver

  // -------------------------------------------------------------------------- jobs

  datatype JobState = SEND_REQ | RECV_REP

  /** What nng has outstanding on an aio. */
  datatype Operation = Idle | Sending | Receiving

  const NNG_ENOMEM := 2

  class Job {
    var httpAio: Option<nat>
    var state: JobState
    var msg: Option<nat>
    var aioMsg: Option<nat>
    var operation: Operation
    var next: Job?

    /** calloc and nng_aio_alloc. */
    constructor ()
      ensures httpAio == None && state == SEND_REQ && msg == None && operation == Idle && next == null
    {
      httpAio, state, msg, aioMsg, operation, next := None, SEND_REQ, None, None, Idle, null;
    }
  }

  /** The list that starts at `head` is exactly `jobs`: it ends, and no job is on it twice. */
  ghost predicate Linked(head: Job?, jobs: seq<Job>)
    reads jobs`next
  {
    if jobs == [] then head == null
    else head == jobs[0] && jobs[0] !in jobs[1..] && Linked(jobs[0].next, jobs[1..])
  }

  lemma {:induction false} NoJobTwice(head: Job?, jobs: seq<Job>)
    requires Linked(head, jobs)
    ensures forall i, j :: 0 <= i < j < |jobs| ==> jobs[i] != jobs[j]
  {
    if jobs != [] {
      NoJobTwice(jobs[0].next, jobs[1..]);
      assert forall j :: 0 < j < |jobs| ==> jobs[j] == jobs[1..][j - 1];
    }
  }

  lemma WithoutValue(m: map<nat, Job>, a: nat)
    requires a in m && forall b <- m, c <- m :: m[b] == m[c] ==> b == c
    ensures (m - {a}).Values == m.Values - {m[a]}
  {
    forall j | j in m.Values - {m[a]}
      ensures j in (m - {a}).Values
    {
      var b :| b in m && m[b] == j;
      assert b in m - {a} && (m - {a})[b] == j;
    }
  }

  class Server {
    var freelist: Job?
    /** The HTTP aios, and the result each was finished with. */
    var requests: Account<int>
    /** The messages made here or received. */
    var messages: Account<Fate>
    /** Handlers that have their job and go on from there. */
    var handlers: map<nat, Job>
    ghost var free: seq<Job>
    /** Jobs that are not on the freelist. */
    ghost var held: set<Job>
    /** Those of them in the hands of a running callback; the others have an operation in nng. */
    ghost var running: set<Job>

    /** All jobs there are. */
    ghost function Jobs(): set<Job>
      reads this`free, this`held
    {
      (set j <- free) + held
    }

    /** The freelist is a list, and a job is in one place only. */
    ghost predicate Places()
      reads this`freelist, this`free, this`held, this`running, free`next
    {
      Linked(freelist, free) && running <= held && forall j <- free :: j !in held
    }

    /** What the fields of a job are, by where it is. */
    ghost predicate Fields()
      reads this`free, this`held, this`running
      reads free`msg, free`operation
      reads held`state, held`msg, held`aioMsg, held`operation
    {
      (forall j <- free :: j.msg == None && j.operation == Idle) &&
      forall j <- held ::
        if j in running then j.operation == Idle
        else if j.state == SEND_REQ then j.operation == Sending && j.msg.Some? && j.aioMsg == j.msg
        else j.operation == Receiving && j.msg == None
    }

    /** Who has which request. */
    ghost predicate Requests()
      reads this`requests, this`held, this`running, held`httpAio
    {
      requests.Once() &&
      (forall a <- requests.owner :: requests.owner[a].Some? ==> requests.owner[a].value in held) &&
      requests.Apart() &&
      forall j <- held :: j !in running ==>
        j.httpAio.Some? && j.httpAio.value in requests.owner && requests.owner[j.httpAio.value] == Some(j)
    }

    /** Who has which message. */
    ghost predicate Messages()
      reads this`messages, this`held, held`msg
    {
      messages.Once() &&
      (forall m <- messages.owner :: messages.owner[m].Some? && messages.owner[m].value in held &&
        messages.owner[m].value.msg == Some(m)) &&
      forall j <- held :: j.msg.Some? ==> j.msg.value in messages.owner && messages.owner[j.msg.value] == Some(j)
    }

    /** Handlers between getting their job and going on. */
    ghost predicate Handlers()
      reads this`handlers, this`requests, this`held, this`running, held`msg
    {
      running <= held &&
      (forall a <- handlers :: a in requests.owner && requests.owner[a] == None &&
        handlers[a] in running && handlers[a].msg == None) &&
      (forall a <- requests.owner :: requests.owner[a].Some? ==> requests.owner[a].value !in handlers.Values) &&
      forall a <- handlers, b <- handlers :: handlers[a] == handlers[b] ==> a == b
    }

    ghost predicate Valid()
      reads this, free, held
    {
      Places() && Fields() && Requests() && Messages() && Handlers()
    }

    /** No callback is running. */
    ghost predicate Quiet()
      reads this
    {
      running == handlers.Values && forall a <- requests.owner :: requests.owner[a] == None ==> a in handlers
    }
  
    constructor ()
      ensures Valid() && Quiet() && free == [] && held == {} && requests.done == [] && messages.done == []
    {
      freelist := null;
      requests, messages, handlers := Account([], map[]), Account([], map[]), map[];
      free, held, running := [], {}, {};
    }

    /** The locked section of rest_get_job. */
    method PopFree() returns (job: Job)
      requires Places() && freelist != null
      modifies this`freelist, this`free, this`held, this`running, freelist`next
      ensures old(free) == [job] + free && held == old(held) + {job} && running == old(running) + {job} && Places()
    {
      job := freelist;
      assert free == [job] + free[1..];
      freelist := job.next;
      free := free[1..];
      job.next := null;
      held, running := held + {job}, running + {job};
    }

    /** The locked section of rest_recycle_job. */
    method PushFree(job: Job)
      requires Places() && job in running
      modifies this`freelist, this`free, this`held, this`running, job`next
      ensures free == [job] + old(free) && held == old(held) - {job} && running == old(running) - {job} && Places()
    {
      job.next := freelist;
      freelist := job;
      free := [job] + free;
      held, running := held - {job}, running - {job};
      assert free[1..] == old(free);
    }
  
    /** A job from the freelist holds nothing, so it may serve the next request. */
    method Reuse() returns (job: Job)
      requires Valid() && freelist != null
      modifies this`freelist, this`free, this`held, this`running, freelist`next
      ensures Valid() && job.msg == None && old(free) == [job] + free
      ensures job !in old(held) && held == old(held) + {job} && running == old(running) + {job}
    {
      hide Linked, Account.Once;
      assert freelist == free[0] && freelist in free by { EmptyList(); }
      assert freelist.msg == None && freelist.operation == Idle && freelist !in held;
      job := PopFree();
      assert forall j <- free :: j in old(free);
    }

    /** Takes a job off the freelist, or makes one; `memory` says whether the allocations work. */
    method RestGetJob(memory: bool) returns (job: Job?)
      requires Valid()
      modifies this`freelist, this`free, this`held, this`running, free`next
      ensures Valid()
      ensures job == null ==> !memory && held == old(held) && running == old(running) && free == old(free)
      ensures job != null ==> job !in old(held) && held == old(held) + {job} && running == old(running) + {job} && job.msg == None
      ensures job != null ==> if old(free) == [] then free == [] && fresh(job) else old(free) == [job] + free
    {
      EmptyList();
      if freelist != null {
        hide *;
        job := Reuse();
        return;
      }
      if !memory {
        return null;
      }
      job := NewJob();
    }

    method NewJob() returns (job: Job)
      requires Valid()
      modifies this`held, this`running
      ensures Valid() && fresh(job) && job.msg == None
      ensures held == old(held) + {job} && running == old(running) + {job}
    {
      hide Linked, Account.Once;
      job := new Job();
      held, running := held + {job}, running + {job};
    }

    lemma EmptyList()
      requires Places()
      ensures if free == [] then freelist == null else freelist == free[0]
    {
    }

    /** Frees the job's message, when it has one. */
    method FreeMessage(job: Job)
      requires Valid() && job in running
      modifies this`messages, job`msg
      ensures Valid() && job.msg == None
      ensures messages == if old(job.msg).Some? then old(messages.Settle(job.msg.value, Freed)) else old(messages)
    {
      hide Linked, Account.Once, Places, Requests;
      if job.msg != None {
        messages.SettleOnce(job.msg.value, Freed);
        messages := messages.Settle(job.msg.value, Freed);
        job.msg := None;
      }
    }

    /** A job that holds nothing goes back on the freelist. */
    method PutBack(job: Job)
      requires Valid() && job in running && job !in handlers.Values && job.msg == None
      requires forall a <- requests.owner :: requests.owner[a] != Some(job)
      modifies this`freelist, this`free, this`held, this`running, job`next
      ensures Valid() && held == old(held) - {job} && running == old(running) - {job} && free == [job] + old(free)
    {
      hide Linked, Account.Once;
      assert forall a <- handlers :: handlers[a] in handlers.Values;
      PushFree(job);
    }

    method RestRecycleJob(job: Job)
      requires Valid() && job in running && job !in handlers.Values
      requires forall a <- requests.owner :: requests.owner[a] != Some(job)
      modifies this`freelist, this`free, this`held, this`running, this`messages, job`msg, job`next
      ensures Valid() && held == old(held) - {job} && running == old(running) - {job} && free == [job] + old(free)
      ensures messages == if old(job.msg).Some? then old(messages.Settle(job.msg.value, Freed)) else old(messages)
    {
      hide *;
      FreeMessage(job);
      PutBack(job);
    }
  
    /** nng_aio_finish: a request that was not finished before, held by this callback. */
    method Finish(a: nat, rv: int)
      requires Valid() && a in requests.owner && a !in handlers
      requires requests.owner[a].Some? ==> requests.owner[a].value in running
      modifies this`requests
      ensures Valid() && a < |old(requests).done| && requests == old(requests).Settle(a, rv)
    {
      hide Linked, Account.Once, Places, Messages, Fields;
      requests.SettleOnce(a, rv);
      requests := requests.Settle(a, rv);
    }

    /** A job with its request, in the hands of a callback. */
    ghost predicate Holds(job: Job, a: nat)
      reads this`running, this`handlers, this`requests, job`httpAio
    {
      job in running && job !in handlers.Values && job.httpAio == Some(a) && a in requests.owner &&
      requests.owner[a] == Some(job) && a < |requests.done|
    }

    method RestHttpFatal(job: Job, rv: int, ghost a: nat)
      requires Valid() && Holds(job, a)
      modifies this`freelist, this`free, this`held, this`running, this`messages, this`requests, job`msg, job`next
      ensures Valid() && held == old(held) - {job} && running == old(running) - {job} && free == [job] + old(free)
      ensures requests == old(requests.Settle(a, rv))
      ensures messages == if old(job.msg).Some? then old(messages.Settle(job.msg.value, Freed)) else old(messages)
    {
      hide Linked, Account.Once, Places, Messages, Fields;
      assert a !in handlers && forall b <- requests.owner :: requests.owner[b] == Some(job) ==> b == a;
      Finish(job.httpAio.value, rv);
      RestRecycleJob(job);
    }
  
    /** nng has completed the job's operation and calls back. */
    method Deliver(job: Job)
      requires Valid() && job in held && job !in running
      modifies this`running, job`operation
      ensures Valid() && running == old(running) + {job}
      ensures job.httpAio.Some? && Holds(job, job.httpAio.value)
    {
      hide Linked, Account.Once, Messages;
      job.operation := Idle;
      running := running + {job};
      assert Requests() by { hide Places, Fields, Handlers; }
      assert Fields() by { hide Requests, Handlers; }
      assert Handlers() by { hide Places, Fields, Requests; }
      hide Places, Fields;
      assert forall a <- handlers :: handlers[a] in old(running) && handlers[a] in handlers.Values;
      assert job.httpAio.value < |requests.done| by { OwnedIsKnown(job.httpAio.value); }
    }

    lemma OwnedIsKnown(a: nat)
      requires requests.Once() && a in requests.owner
      ensures a < |requests.done|
    {
    }

    /** The message was sent: it is nng's, and the job waits for the reply on the same aio. */
    method AwaitReply(job: Job, ghost a: nat, ghost m: nat)
      requires Valid() && Holds(job, a) && job.msg == Some(m)
      modifies this`running, this`messages, job`msg, job`aioMsg, job`state, job`operation
      ensures Valid() && running == old(running) - {job}
      ensures job.state == RECV_REP && m < |old(messages).done| && messages == old(messages).Settle(m, HandedOver)
    {
      hide Linked, Account.Once, Places, Requests, Messages, Handlers;
      HandOver(job);
      job.aioMsg := None;
      job.state := RECV_REP;
      StartReceive(job, a);
    }

    method HandOver(job: Job)
      requires Valid() && job in running && job.msg.Some?
      modifies this`messages, job`msg
      ensures Valid() && job.msg == None && old(job.msg).value < |old(messages).done|
      ensures messages == old(messages).Settle(old(job.msg).value, HandedOver)
    {
      hide Linked, Account.Once, Places, Requests;
      messages.SettleOnce(job.msg.value, HandedOver);
      messages := messages.Settle(job.msg.value, HandedOver);
      job.msg := None;
    }

    /** nng_ctx_recv: the aio must be idle. */
    method StartReceive(job: Job, ghost a: nat)
      requires Valid() && Holds(job, a) && job.msg == None && job.state == RECV_REP
      modifies this`running, job`operation
      ensures Valid() && running == old(running) - {job}
    {
      hide Linked, Account.Once, Messages;
      assert forall b <- handlers :: handlers[b] in handlers.Values;
      assert job.operation == Idle;
      job.operation := Receiving;
      running := running - {job};
      assert Fields() by { hide Requests, Handlers; }
      assert Requests() by { hide Places, Fields, Handlers; }
      hide Fields, Requests;
    }

    /** The job's message is put on its aio. */
    method PrepareSend(job: Job)
      requires Valid() && job in running
      modifies job`aioMsg, job`state
      ensures Valid() && job.aioMsg == job.msg && job.state == SEND_REQ
    {
      hide Linked, Places, Requests, Messages, Handlers;
      job.aioMsg := job.msg;
      job.state := SEND_REQ;
    }

    /** nng_ctx_send: the aio must be idle, and has the job's message. */
    method StartSend(job: Job, ghost a: nat)
      requires Valid() && Holds(job, a) && job.msg.Some? && job.aioMsg == job.msg && job.state == SEND_REQ
      modifies this`running, job`operation
      ensures Valid() && running == old(running) - {job}
    {
      hide Linked, Account.Once, Messages;
      assert forall b <- handlers :: handlers[b] in handlers.Values;
      assert job.operation == Idle;
      job.operation := Sending;
      running := running - {job};
      assert Fields() by { hide Requests, Handlers; }
      assert Requests() by { hide Places, Fields, Handlers; }
      hide Fields, Requests;
    }

    /** A message that did not exist before is the job's. */
    method NewMessage(job: Job)
      requires Valid() && job in running && job !in handlers.Values && job.msg == None
      modifies this`messages, job`msg
      ensures Valid() && job.msg == Some(|old(messages).done|) && messages == old(messages).Open(Some(job))
    {
      hide Linked, Account.Once, Requests;
      assert job in held;
      messages.OpenOnce(Some(job));
      job.msg := Some(|messages.done|);
      messages := messages.Open(Some(job));
      assert Places() by { hide Fields, Messages, Handlers; }
      assert Fields() by { hide Messages, Handlers; }
      assert Messages() by { hide Places, Fields, Handlers; }
      assert Handlers() by {
        hide Places, Fields, Messages;
        assert forall b <- handlers :: handlers[b] in handlers.Values;
      }
      hide Places, Fields, Messages, Handlers;
    }
  
    /** What a completion does to the requests: a failed send or receive, and a reply, finish the request. */
    ghost function RequestsAfter(job: Job, rv: int, copyRv: int): Account<int>
      reads this`requests, job`httpAio, job`state
      requires job.httpAio.Some? && job.httpAio.value < |requests.done|
    {
      if rv != 0 then requests.Settle(job.httpAio.value, rv)
      else if job.state == RECV_REP then requests.Settle(job.httpAio.value, copyRv)
      else requests
    }

    /** What it does to the messages: a sent one is nng's, an unsent one and a reply are freed. */
    ghost function MessagesAfter(job: Job, rv: int): Account<Fate>
      reads this`messages, job`msg, job`state
      requires job.state == SEND_REQ ==> job.msg.Some? && job.msg.value < |messages.done|
    {
      if job.state == SEND_REQ then messages.Settle(job.msg.value, if rv == 0 then HandedOver else Freed)
      else if rv == 0 then messages.Open(Some(job)).Settle(|messages.done|, Freed)
      else messages
    }

    /** A job in nng has a request, and a message while it sends. */
    lemma Waiting(job: Job)
      requires Valid() && job in held && job !in running
      ensures job.httpAio.Some? && job.httpAio.value < |requests.done|
      ensures job.state == SEND_REQ ==> job.msg.Some? && job.msg.value < |messages.done|
      ensures job.state == RECV_REP ==> job.msg == None
      ensures job.operation == if job.state == SEND_REQ then Sending else Receiving
    {
    }

    /** The operation of `job` completes with `rv`, and `copyRv` is what copying the reply's body gives. */
    method RestJobCb(job: Job, rv: int, copyRv: int)
      requires Valid() && Quiet() && job in held && job !in running
      modifies this`freelist, this`free, this`held, this`running, this`messages, this`requests
      modifies job`httpAio, job`state, job`msg, job`aioMsg, job`operation, job`next
      ensures Valid() && Quiet()
      ensures if rv == 0 && old(job.state) == SEND_REQ then held == old(held) && job.state == RECV_REP && free == old(free)
        else held == old(held) - {job} && free == [job] + old(free)
      ensures old(job.httpAio).Some? && old(job.httpAio).value < |old(requests).done|
      ensures requests == old(RequestsAfter(job, rv, copyRv))
      ensures old(job.state) == SEND_REQ ==> old(job.msg).Some? && old(job.msg).value < |old(messages).done|
      ensures messages == old(MessagesAfter(job, rv))
    {
      hide Linked, Account.Once, Places, Fields, Requests, Messages, Handlers;
      Waiting(job);
      var a := job.httpAio.value;
      Deliver(job);
      match job.state
      case SEND_REQ =>
        if rv != 0 {
          RestHttpFatal(job, rv, a);
          return;
        }
        AwaitReply(job, a, job.msg.value);
      case RECV_REP =>
        if rv != 0 {
          RestHttpFatal(job, rv, a);
          return;
        }
        NewMessage(job);
        if copyRv != 0 {
          RestHttpFatal(job, copyRv, a);
          return;
        }
        OneRequest(job, a);
        Finish(a, 0);
        ClearHttpAio(job);
        RestRecycleJob(job);
    }

    method ClearHttpAio(job: Job)
      requires Valid() && job in running
      modifies job`httpAio
      ensures Valid() && job.httpAio == None
    {
      hide Linked, Account.Once, Places, Fields, Messages, Handlers;
      job.httpAio := None;
    }

    lemma OneRequest(job: Job, a: nat)
      requires Valid() && Holds(job, a)
      ensures a !in handlers && forall b <- requests.owner :: requests.owner[b] == Some(job) ==> b == a
    {
    }
  
    /** A request arrives, held by the handler alone. */
    method Arrive() returns (a: nat)
      requires Valid()
      modifies this`requests
      ensures Valid() && a == |old(requests).done| && a !in handlers
      ensures requests == old(requests).Open(None) && a in requests.owner && requests.owner[a] == None
    {
      hide Linked, Account.Once, Places, Fields, Messages;
      a := |requests.done|;
      requests.OpenOnce(None);
      requests := requests.Open(None);
    }

    /** The handler of request `a` remembers its job. */
    method Begin(a: nat, job: Job)
      requires Valid() && a in requests.owner && requests.owner[a] == None && a !in handlers
      requires job in running && job.msg == None && job !in handlers.Values
      requires forall b <- requests.owner :: requests.owner[b] != Some(job)
      modifies this`handlers
      ensures Valid() && handlers == old(handlers)[a := job] && handlers.Values == old(handlers.Values) + {job}
    {
      hide Linked, Account.Once, Places, Fields, Requests, Messages;
      handlers := handlers[a := job];
      assert handlers[a] == job && forall b <- old(handlers) :: handlers[b] == old(handlers)[b];
      assert forall b <- old(handlers) :: old(handlers)[b] in old(handlers.Values);
    }

    /** rest_handle up to and including rest_get_job: when there is no job, the request fails at once. */
    method RestHandle(memory: bool) returns (a: nat)
      requires Valid() && Quiet()
      modifies this`freelist, this`free, this`held, this`running, this`requests, this`handlers, free`next
      ensures Valid() && Quiet() && a == |old(requests).done| && (memory ==> a in handlers)
      ensures
        if a in handlers then
          requests == old(requests).Open(None) && handlers == old(handlers)[a := handlers[a]] &&
          held == old(held) + {handlers[a]} && handlers[a] !in old(held) &&
          (if old(free) == [] then free == [] && fresh(handlers[a]) else old(free) == [handlers[a]] + free)
        else
          requests == old(requests).Open(None).Settle(a, NNG_ENOMEM) && handlers == old(handlers) &&
          held == old(held) && free == old(free)
    {
      hide Linked, Account.Once, Places, Fields, Messages;
      a := Arrive();
      var job := RestGetJob(memory);
      if job == null {
        Finish(a, NNG_ENOMEM);
        return;
      }
      Begin(a, job);
    }

    /** The handler of `a` takes its job along. */
    method Resume(a: nat) returns (job: Job)
      requires Valid() && Quiet() && a in handlers
      modifies this`handlers
      ensures Valid() && job == old(handlers[a]) && handlers == old(handlers) - {a}
      ensures job in running && job !in handlers.Values && job.msg == None && handlers.Values == running - {job}
      ensures a in requests.owner && requests.owner[a] == None && a < |requests.done|
      ensures forall b <- requests.owner :: requests.owner[b] != Some(job)
      ensures forall b <- requests.owner :: requests.owner[b] == None ==> b == a || b in handlers
    {
      hide Linked, Account.Once, Places, Fields, Messages;
      job := handlers[a];
      OwnedIsKnown(a) by { KnownRequests(); }
      WithoutValue(handlers, a);
      handlers := handlers - {a};
    }

    lemma KnownRequests()
      requires Requests()
      ensures requests.Once()
    {
    }

    /** The job takes the request from its handler. */
    method GiveRequest(job: Job, a: nat)
      requires Valid() && job in running && job !in handlers.Values && a !in handlers
      requires a in requests.owner && requests.owner[a] == None && a < |requests.done|
      requires forall b <- requests.owner :: requests.owner[b] != Some(job)
      modifies this`requests, job`httpAio
      ensures Valid() && Holds(job, a) && requests == old(requests).Give(a, Some(job))
    {
      hide Linked, Places, Fields, Messages, Account.Once, Account.Apart;
      assert job in held;
      requests.GiveOnce(a, job);
      job.httpAio := Some(a);
      requests := requests.Give(a, Some(job));
      assert Requests() by { hide Handlers; }
      assert Handlers() by { hide Requests; }
      hide Requests, Handlers;
    }

    /** rest_handle from nng_ctx_open on, with what that and nng_msg_alloc return. */
    method RestHandleGoOn(a: nat, ctxRv: int, msgRv: int)
      requires Valid() && Quiet() && a in handlers
      modifies this`freelist, this`free, this`held, this`running, this`messages, this`requests, this`handlers
      modifies handlers[a]
      ensures Valid() && Quiet() && handlers == old(handlers) - {a} && a < |old(requests).done|
      ensures ctxRv != 0 || msgRv != 0 ==>
        requests == old(requests).Settle(a, if ctxRv != 0 then ctxRv else msgRv) && messages == old(messages) &&
        held == old(held - {handlers[a]}) && free == old([handlers[a]] + free)
      ensures ctxRv == 0 && msgRv == 0 ==>
        requests == old(requests.Give(a, Some(handlers[a]))) && messages == old(messages.Open(Some(handlers[a]))) &&
        held == old(held) && free == old(free) && old(handlers[a]) !in running
    {
      hide Linked, Account.Once, Places, Fields, Requests, Messages, Handlers;
      var job := Resume(a);
      if ctxRv != 0 {
        RestRecycleJob(job);
        Finish(a, ctxRv);
        return;
      }
      GiveRequest(job, a);
      if msgRv != 0 {
        RestHttpFatal(job, msgRv, a);
        return;
      }
      NewMessage(job);
      PrepareSend(job);
      StartSend(job, a);
    }
  
    /** Job `j` has request `a` and exactly one operation in nng. */
    ghost predicate Serves(j: Job, a: nat)
      reads this`held, this`running, j
    {
      j in held && j !in running && j.httpAio == Some(a) && j.operation != Idle
    }

    /** What the demo promises, said without who owns what. */
    ghost predicate Safe()
      reads this, free, held
    {
      // Every request is finished at most once, and an unfinished one is with its handler or with one job alone.
      (forall a: nat :: a < |requests.done| ==>
        |requests.done[a]| <= 1 &&
        (requests.done[a] == [] ==> a in handlers || exists j <- held :: Serves(j, a))) &&
      (forall i <- held, j <- held, a: nat :: Serves(i, a) && Serves(j, a) ==> i == j) &&
      (forall j <- held, a: nat :: Serves(j, a) ==> a < |requests.done| && requests.done[a] == [] && a !in handlers) &&
      // The freelist ends, has no job twice, and has no job that is in use.
      Linked(freelist, free) && (forall i, j :: 0 <= i < j < |free| ==> free[i] != free[j]) &&
      (forall j <- free :: j !in held && j.operation == Idle && j.msg == None) &&
      // Every message is freed or handed over at most once, and until then is in one job.
      (forall m: nat :: m < |messages.done| ==>
        |messages.done[m]| <= 1 && (messages.done[m] == [] ==> exists j <- held :: j.msg == Some(m))) &&
      (forall i <- held, j <- held :: i.msg.Some? && i.msg == j.msg ==> i == j) &&
      (forall j <- held :: j.msg.Some? ==> j.msg.value < |messages.done| && messages.done[j.msg.value] == [])
    }

    /** A request in a job, with no callback running, has its operation in nng. */
    lemma Outstanding(a: nat)
      requires Valid() && Quiet() && a in requests.owner && requests.owner[a].Some?
      ensures requests.owner[a].value in held && requests.owner[a].value !in running
      ensures requests.owner[a].value.httpAio == Some(a) && a < |requests.done|
    {
    }

    lemma Beginning(a: nat)
      requires Valid() && a in handlers
      ensures handlers[a] in held
    {
    }

    lemma RequestsSafe()
      requires Requests() && Handlers() && Quiet() && Fields()
      ensures forall a: nat :: a < |requests.done| ==>
        |requests.done[a]| <= 1 && (requests.done[a] == [] ==> a in handlers || exists j <- held :: Serves(j, a))
    {
      forall a: nat | a < |requests.done| && requests.done[a] == []
        ensures a in handlers || exists j <- held :: Serves(j, a)
      {
        assert a in requests.owner;
        if requests.owner[a].Some? {
          var j := requests.owner[a].value;
          assert j in held && j !in running;
          assert requests.owner[j.httpAio.value] == Some(j);
          assert Serves(j, a);
        }
      }
    }

    lemma MessagesSafe()
      requires Messages()
      ensures forall m: nat :: m < |messages.done| ==>
        |messages.done[m]| <= 1 && (messages.done[m] == [] ==> exists j <- held :: j.msg == Some(m))
      ensures forall i <- held, j <- held :: i.msg.Some? && i.msg == j.msg ==> i == j
      ensures forall j <- held :: j.msg.Some? ==> j.msg.value < |messages.done| && messages.done[j.msg.value] == []
    {
      forall m: nat | m < |messages.done| && messages.done[m] == []
        ensures exists j <- held :: j.msg == Some(m)
      {
        assert messages.owner[m].value in held;
      }
    }

    lemma ValidIsSafe()
      requires Valid() && Quiet()
      ensures Safe()
    {
      RequestsSafe();
      MessagesSafe();
      NoJobTwice(freelist, free);
      hide Linked;
      forall j <- held, a: nat | Serves(j, a)
        ensures a < |requests.done| && requests.done[a] == [] && a !in handlers
      {
        assert requests.owner[a] == Some(j);
      }
    }

    /** When no job and no handler is at work, every request was finished once and every message settled once. */
    lemma AllDone()
      requires Safe() && held == {} && handlers == map[]
      ensures forall a: nat :: a < |requests.done| ==> |requests.done[a]| == 1
      ensures forall m: nat :: m < |messages.done| ==> |messages.done[m]| == 1
    {
    }
  }

  /** What may happen next, with the results the code may see. */
  datatype Event =
    | Request(memory: bool)
    | GoOn(request: nat, ctxRv: int, msgRv: int)
    | Completion(request: nat, rv: int, copyRv: int)

  // ------------------------------------------------------------------- what was told

  /** What happened to a request, with the codes that nng and the HTTP library gave, and the result it got. */
  datatype Entry =
    | Arrived(request: nat)
    | NoJob(request: nat)
    | Opened(request: nat, rv: int)
    | Allocated(request: nat, rv: int)
    | Sent(request: nat, rv: int)
    | Received(request: nat, rv: int)
    | Copied(request: nat, rv: int)
    | Finished(request: nat, result: int)

  /** The event in which this happened; its codes are those of the event. */
  predicate HappensIn(e: Entry, event: Event) {
    match e
    case Arrived(_) => event.Request?
    case NoJob(_) => event == Request(false)
    case Opened(a, rv) => event.GoOn? && event.request == a && event.ctxRv == rv
    case Allocated(a, rv) => event.GoOn? && event.request == a && event.msgRv == rv
    case Sent(a, rv) => event.Completion? && event.request == a && event.rv == rv
    case Received(a, rv) => event.Completion? && event.request == a && event.rv == rv
    case Copied(a, rv) => event.Completion? && event.request == a && event.copyRv == rv
    case Finished(_, _) => true
  }

  predicate AllHappenIn(round: seq<Entry>, event: Event) {
    forall k :: 0 <= k < |round| ==> HappensIn(round[k], event)
  }

  ghost predicate AllHappened(trace: seq<Entry>, events: seq<Event>) {
    forall k :: 0 <= k < |trace| ==> exists i :: 0 <= i < |events| && HappensIn(trace[k], events[i])
  }

  lemma HappenedNext(trace: seq<Entry>, round: seq<Entry>, events: seq<Event>, i: nat)
    requires i < |events| && AllHappened(trace, events[..i]) && AllHappenIn(round, events[i])
    ensures AllHappened(trace + round, events[..i + 1])
  {
    hide HappensIn;
    var until := events[..i + 1];
    forall k | 0 <= k < |trace + round|
      ensures exists j :: 0 <= j < |until| && HappensIn((trace + round)[k], until[j])
    {
      if k < |trace| {
        var j :| 0 <= j < i && HappensIn(trace[k], events[..i][j]);
        assert until[j] == events[..i][j];
      } else {
        assert until[i] == events[i];
      }
    }
  }

  /** What one callback or handler section may tell about request `a`: it goes on when all went well, else it finishes
      the request with the code that failed; only a reply that was copied finishes it with whatever copying gave. */
  ghost predicate IsRound(round: seq<Entry>, a: nat) {
    || round == []
    || round == [Arrived(a)]
    || round == [Arrived(a), NoJob(a), Finished(a, 2)]
    || round == [Opened(a, 0), Allocated(a, 0)]
    || round == [Sent(a, 0)]
    || (exists r: int :: FailedRound(round, a, r))
    || (exists r: int :: round == [Received(a, 0), Copied(a, r), Finished(a, r)])
  }

  predicate FailedRound(round: seq<Entry>, a: nat, r: int) {
    r != 0 &&
    (round == [Opened(a, r), Finished(a, r)] || round == [Opened(a, 0), Allocated(a, r), Finished(a, r)] ||
    round == [Sent(a, r), Finished(a, r)] || round == [Received(a, r), Finished(a, r)])
  }

  /** The results that a trace has for a request. */
  function Results(trace: seq<Entry>, a: nat): seq<int> {
    if trace == [] then []
    else
      var last := trace[|trace| - 1];
      Results(trace[..|trace| - 1], a) + if last.Finished? && last.request == a then [last.result] else []
  }

  /** The bookkeeping has exactly the results of the trace. */
  ghost predicate Booked(trace: seq<Entry>, requests: Account<int>) {
    forall a: nat :: Results(trace, a) == if a < |requests.done| then requests.done[a] else []
  }

  /** The code of what failed; 2 is NNG_ENOMEM. */
  predicate FailedWith(e: Entry, a: nat, r: int) {
    e == Opened(a, r) || e == Allocated(a, r) || e == Sent(a, r) || e == Received(a, r) || e == Copied(a, r) ||
    (e == NoJob(a) && r == 2)
  }

  /** The promise about results: 0 only after the reply was received and copied, anything else right after it was the
      code of what failed. */
  predicate Justified(trace: seq<Entry>, k: nat)
    requires k < |trace| && trace[k].Finished?
  {
    var a, r := trace[k].request, trace[k].result;
    if r == 0 then k > 1 && trace[k - 1] == Copied(a, 0) && trace[k - 2] == Received(a, 0)
    else k > 0 && FailedWith(trace[k - 1], a, r)
  }

  ghost predicate AllJustified(trace: seq<Entry>) {
    forall k :: 0 <= k < |trace| && trace[k].Finished? ==> Justified(trace, k)
  }

  lemma {:induction false} ResultsConcat(trace: seq<Entry>, round: seq<Entry>, a: nat)
    ensures Results(trace + round, a) == Results(trace, a) + Results(round, a)
  {
    if round == [] {
      assert trace + round == trace;
    } else {
      var front := round[..|round| - 1];
      ResultsConcat(trace, front, a);
      assert (trace + round)[..|trace + round| - 1] == trace + front;
    }
  }

  lemma RoundJustified(trace: seq<Entry>, round: seq<Entry>, a: nat)
    requires AllJustified(trace) && IsRound(round, a)
    ensures AllJustified(trace + round)
  {
    var all := trace + round;
    forall k | 0 <= k < |all| && all[k].Finished?
      ensures Justified(all, k)
    {
      if k < |trace| {
        assert Justified(trace, k);
      } else {
        assert all[k] == round[k - |trace|] && (k > |trace| ==> all[k - 1] == round[k - |trace| - 1]);
        assert k > |trace| + 1 ==> all[k - 2] == round[k - |trace| - 2];
      }
    }
  }

  /** One event adds a round to the trace. */
  lemma BookedNext(trace: seq<Entry>, round: seq<Entry>, before: Account<int>, after: Account<int>)
    requires Booked(trace, before) && |before.done| <= |after.done|
    requires forall a: nat :: a < |after.done| ==>
      after.done[a] == (if a < |before.done| then before.done[a] else []) + Results(round, a)
    requires forall a: nat :: a >= |after.done| ==> Results(round, a) == []
    ensures Booked(trace + round, after)
  {
    forall a: nat
      ensures Results(trace + round, a) == if a < |after.done| then after.done[a] else []
    {
      ResultsConcat(trace, round, a);
    }
  }

  /** The result that the bookkeeping has now and had not before. */
  function Added(before: Account<int>, after: Account<int>, a: nat): seq<Entry> {
    var n := if a < |before.done| then |before.done[a]| else 0;
    if a < |after.done| && |after.done[a]| > n then [Finished(a, after.done[a][n])] else []
  }

  /** Only request `a` may have a new result, and no more than one. */
  ghost predicate OneMore(before: Account<int>, after: Account<int>, a: nat) {
    var prior := if a < |before.done| then before.done[a] else [];
    |before.done| <= |after.done| && a < |after.done| &&
    (forall b: nat ::
      b < |after.done| && b != a ==> after.done[b] == if b < |before.done| then before.done[b] else []) &&
    (after.done[a] == prior || exists r :: after.done[a] == prior + [r])
  }

  lemma BookedAdded(trace: seq<Entry>, told: seq<Entry>, before: Account<int>, after: Account<int>, a: nat)
    requires Booked(trace, before) && OneMore(before, after, a) && forall k :: 0 <= k < |told| ==> !told[k].Finished?
    ensures Booked(trace + (told + Added(before, after, a)), after)
  {
    var round := told + Added(before, after, a);
    forall b: nat
      ensures Results(round, b) ==
        if b == a && Added(before, after, a) != [] then [Added(before, after, a)[0].result] else []
    {
      ResultsConcat(told, Added(before, after, a), b);
      NoResults(told, b);
      assert Results([], b) == [];
      assert Added(before, after, a) != [] ==> Added(before, after, a)[..0] == [];
    }
    BookedNext(trace, round, before, after);
  }

  /** What each change of the bookkeeping adds. */
  lemma ChangesAdd(before: Account<int>, a: nat, r: int, holder: Option<Job>)
    ensures a < |before.done| ==>
      OneMore(before, before.Settle(a, r), a) && Added(before, before.Settle(a, r), a) == [Finished(a, r)] &&
      OneMore(before, before, a) && Added(before, before, a) == [] &&
      OneMore(before, before.Give(a, holder), a) && Added(before, before.Give(a, holder), a) == []
    ensures a == |before.done| ==>
      OneMore(before, before.Open(holder), a) && Added(before, before.Open(holder), a) == [] &&
      OneMore(before, before.Open(holder).Settle(a, r), a) &&
      Added(before, before.Open(holder).Settle(a, r), a) == [Finished(a, r)]
  {
  }

  /** The rounds that end with a result. */
  lemma RoundsThatFinish(a: nat, r: int)
    ensures IsRound([Received(a, 0), Copied(a, r)] + [Finished(a, r)], a)
    ensures r != 0 ==>
      IsRound([Opened(a, r)] + [Finished(a, r)], a) && IsRound([Opened(a, 0), Allocated(a, r)] + [Finished(a, r)], a) &&
      IsRound([Sent(a, r)] + [Finished(a, r)], a) && IsRound([Received(a, r)] + [Finished(a, r)], a)
    ensures IsRound([Arrived(a), NoJob(a)] + [Finished(a, 2)], a)
  {
    assert [Received(a, 0), Copied(a, r)] + [Finished(a, r)] == [Received(a, 0), Copied(a, r), Finished(a, r)];
    assert r != 0 ==> FailedRound([Opened(a, r)] + [Finished(a, r)], a, r);
    assert r != 0 ==> FailedRound([Opened(a, 0), Allocated(a, r)] + [Finished(a, r)], a, r);
    assert r != 0 ==> FailedRound([Sent(a, r)] + [Finished(a, r)], a, r);
    assert r != 0 ==> FailedRound([Received(a, r)] + [Finished(a, r)], a, r);
  }

  lemma {:induction false} NoResults(told: seq<Entry>, a: nat)
    requires forall k :: 0 <= k < |told| ==> !told[k].Finished?
    ensures Results(told, a) == []
  {
    if told != [] {
      NoResults(told[..|told| - 1], a);
    }
  }

  /** What is told happens in the event that it is told of. */
  lemma ToldHappens(a: nat, rv: int, other: int)
    ensures forall memory :: AllHappenIn([Arrived(a)], Request(memory))
    ensures AllHappenIn([Arrived(a), NoJob(a)], Request(false))
    ensures AllHappenIn([Opened(a, rv)], GoOn(a, rv, other))
    ensures AllHappenIn([Opened(a, rv), Allocated(a, other)], GoOn(a, rv, other))
    ensures AllHappenIn([Sent(a, rv)], Completion(a, rv, other))
    ensures AllHappenIn([Received(a, rv)], Completion(a, rv, other))
    ensures AllHappenIn([Received(a, rv), Copied(a, other)], Completion(a, rv, other))
  {
  }

  lemma AddedHappens(told: seq<Entry>, before: Account<int>, after: Account<int>, a: nat, event: Event)
    requires AllHappenIn(told, event)
    ensures AllHappenIn(told + Added(before, after, a), event)
  {
  }

  /** A request arrives. */
  method TellArrival(server: Server, memory: bool, ghost trace: seq<Entry>) returns (ghost round: seq<Entry>, a: nat)
    requires server.Valid() && server.Quiet() && Booked(trace, server.requests)
    modifies server, server.Jobs()
    ensures server.Valid() && server.Quiet() && fresh(server.Jobs() - old(server.Jobs()))
    ensures IsRound(round, a) && Booked(trace + round, server.requests) && AllHappenIn(round, Request(memory))
  {
    hide Linked, Account.Once, Server.Valid, Server.Quiet, Server.Safe;
    hide Booked, OneMore, Added, IsRound, AllHappenIn, Account.Open, Account.Settle, Account.Give;
    ghost var before := server.requests;
    a := server.RestHandle(memory);
    ghost var told := if a in server.handlers then [Arrived(a)] else [Arrived(a), NoJob(a)];
    RoundsThatGoOn(a);
    RoundsThatFinish(a, 2);
    ChangesAdd(before, a, 2, None);
    ToldHappens(a, 0, 0);
    AddedHappens(told, before, server.requests, a, Request(memory));
    round := told + Added(before, server.requests, a);
    BookedAdded(trace, told, before, server.requests, a);
  }

  /** A handler goes on. */
  method TellGoOn(server: Server, a: nat, ctxRv: int, msgRv: int, ghost trace: seq<Entry>)
    returns (ghost round: seq<Entry>)
    requires a in server.handlers
    requires server.Valid() && server.Quiet() && Booked(trace, server.requests)
    modifies server, server.Jobs()
    ensures server.Valid() && server.Quiet() && fresh(server.Jobs() - old(server.Jobs()))
    ensures IsRound(round, a) && Booked(trace + round, server.requests)
    ensures AllHappenIn(round, GoOn(a, ctxRv, msgRv))
  {
    hide Linked, Account.Once, Server.Valid, Server.Quiet, Server.Safe;
    hide Booked, OneMore, Added, IsRound, AllHappenIn, Account.Open, Account.Settle, Account.Give;
    ghost var before := server.requests;
    ghost var r := if ctxRv != 0 then ctxRv else msgRv;
    RoundsThatGoOn(a);
    RoundsThatFinish(a, r);
    ChangesAdd(before, a, r, Some(server.handlers[a]));
    server.Beginning(a);
    server.RestHandleGoOn(a, ctxRv, msgRv);
    ghost var told := if ctxRv != 0 then [Opened(a, ctxRv)] else [Opened(a, 0), Allocated(a, msgRv)];
    ToldHappens(a, ctxRv, msgRv);
    AddedHappens(told, before, server.requests, a, GoOn(a, ctxRv, msgRv));
    round := told + Added(before, server.requests, a);
    BookedAdded(trace, told, before, server.requests, a);
  }

  /** The operation that is outstanding for a request completes. */
  method TellCompletion(server: Server, a: nat, rv: int, copyRv: int, ghost trace: seq<Entry>)
    returns (ghost round: seq<Entry>)
    requires a in server.requests.owner && server.requests.owner[a].Some?
    requires server.Valid() && server.Quiet() && Booked(trace, server.requests)
    modifies server, server.Jobs()
    ensures server.Valid() && server.Quiet() && fresh(server.Jobs() - old(server.Jobs()))
    ensures IsRound(round, a) && Booked(trace + round, server.requests)
    ensures AllHappenIn(round, Completion(a, rv, copyRv))
  {
    hide Linked, Account.Once, Server.Valid, Server.Quiet, Server.Safe;
    hide Booked, OneMore, Added, IsRound, AllHappenIn, Account.Open, Account.Settle, Account.Give;
    ghost var before := server.requests;
    var job := server.requests.owner[a].value;
    server.Outstanding(a);
    server.Waiting(job);
    ghost var told := if job.operation == Sending then [Sent(a, rv)]
      else if rv != 0 then [Received(a, rv)] else [Received(a, 0), Copied(a, copyRv)];
    ghost var r := if rv != 0 then rv else copyRv;
    RoundsThatGoOn(a);
    RoundsThatFinish(a, r);
    ChangesAdd(before, a, r, None);
    server.RestJobCb(job, rv, copyRv);
    ToldHappens(a, rv, copyRv);
    AddedHappens(told, before, server.requests, a, Completion(a, rv, copyRv));
    round := told + Added(before, server.requests, a);
    BookedAdded(trace, told, before, server.requests, a);
  }

  lemma NothingHappens(event: Event)
    ensures AllHappenIn([], event)
  {
  }

  /** One event, and what it tells. What is not possible in a state (going on without having begun, completing what is
      not outstanding) does not happen. */
  method Step(server: Server, event: Event, ghost trace: seq<Entry>) returns (ghost round: seq<Entry>, ghost a: nat)
    requires server.Valid() && server.Quiet() && Booked(trace, server.requests)
    modifies server, server.Jobs()
    ensures server.Valid() && server.Quiet() && fresh(server.Jobs() - old(server.Jobs()))
    ensures IsRound(round, a) && Booked(trace + round, server.requests) && AllHappenIn(round, event)
  {
    hide *;
    NothingHappens(event);
    RoundsThatGoOn(0);
    assert trace + [] == trace;
    round, a := [], 0;
    match event
    case Request(memory) =>
      var b;
      round, b := TellArrival(server, memory, trace);
      a := b;
    case GoOn(b, ctxRv, msgRv) =>
      if b in server.handlers {
        round := TellGoOn(server, b, ctxRv, msgRv, trace);
        a := b;
      }
    case Completion(b, rv, copyRv) =>
      if b in server.requests.owner && server.requests.owner[b].Some? {
        round := TellCompletion(server, b, rv, copyRv, trace);
        a := b;
      }
  }

  /** The rounds after which a request waits. */
  lemma RoundsThatGoOn(a: nat)
    ensures IsRound([], a) && IsRound([Arrived(a)] + [], a)
    ensures IsRound([Opened(a, 0), Allocated(a, 0)] + [], a) && IsRound([Sent(a, 0)] + [], a)
  {
    assert [Arrived(a)] + [] == [Arrived(a)] && [Sent(a, 0)] + [] == [Sent(a, 0)];
    assert [Opened(a, 0), Allocated(a, 0)] + [] == [Opened(a, 0), Allocated(a, 0)];
  }

  /** Any run: requests arrive, handlers go on and operations complete in any order and with any result. Every result
      that a request is finished with is justified by what happened right before. */
  method Run(events: seq<Event>) returns (server: Server, ghost trace: seq<Entry>)
    ensures server.Valid() && server.Quiet() && server.Safe()
    ensures AllJustified(trace) && Booked(trace, server.requests) && AllHappened(trace, events)
  {
    server := new Server();
    trace := [];
    for i := 0 to |events|
      invariant fresh(server) && fresh(server.Jobs())
      invariant server.Valid() && server.Quiet()
      invariant AllJustified(trace) && Booked(trace, server.requests) && AllHappened(trace, events[..i])
    {
      hide Linked, Account.Once, Server.Valid, Server.Quiet, Server.Safe, Server.Jobs;
      hide AllJustified, Booked, IsRound, AllHappenIn, AllHappened;
      ghost var round, a := Step(server, events[i], trace);
      RoundJustified(trace, round, a);
      HappenedNext(trace, round, events, i);
      trace := trace + round;
    }
    assert events[..|events|] == events;
    server.ValidIsSafe();
  }
}
