/** The cache of a pool connection, and its replay to a miner that is switched to the pool. */
module PoolCaches {
  import opened Wrappers

  /** Messages from a pool. Only the fields that the cache or a miner depends on are kept apart. */
  datatype Message =
    | Notify(job: string, clean: bool, work: string)
    | SetDifficulty(difficulty: real)
    | SetExtranonce(extranonce: string, size: int)
    | Result(id: int, payload: string)
    | Other(payload: string)

  // ---- what a miner makes of the messages

  /** What a miner works with. A notify with clean_jobs ends all earlier jobs. */
  datatype Miner = Miner(extranonce: Option<Message>, difficulty: Option<Message>, jobs: seq<Message>)

  const BLANK: Miner := Miner(None, None, [])

  function Step(m: Miner, msg: Message): Miner {
    match msg
    case Notify(_, clean, _) => m.(jobs := if clean then [msg] else m.jobs + [msg])
    case SetDifficulty(_) => m.(difficulty := Some(msg))
    case SetExtranonce(_, _) => m.(extranonce := Some(msg))
    case _ => m
  }

  function Run(m: Miner, msgs: seq<Message>): Miner {
    if msgs == [] then m else Step(Run(m, msgs[..|msgs| - 1]), msgs[|msgs| - 1])
  }

  lemma {:induction false} RunConcat(m: Miner, a: seq<Message>, b: seq<Message>)
    ensures Run(m, a + b) == Run(Run(m, a), b)
  {
    if b == [] {
      assert a + b == a;
    } else {
      assert (a + b)[..|a + b| - 1] == a + b[..|b| - 1];
      RunConcat(m, a, b[..|b| - 1]);
    }
  }

  lemma RunOne(m: Miner, msg: Message)
    ensures Run(m, [msg]) == Step(m, msg)
  {
    assert [msg][..0] == [];
  }

  ghost predicate HasClean(msgs: seq<Message>) {
    exists i :: 0 <= i < |msgs| && msgs[i].Notify? && msgs[i].clean
  }

  ghost predicate HasDifficulty(msgs: seq<Message>) {
    exists i :: 0 <= i < |msgs| && msgs[i].SetDifficulty?
  }

  ghost predicate HasExtranonce(msgs: seq<Message>) {
    exists i :: 0 <= i < |msgs| && msgs[i].SetExtranonce?
  }

  /** What is left of the miner a stream started from, in terms of what the stream makes of a blank miner. */
  ghost function Upon(m: Miner, blank: Miner, clean: bool): Miner {
    Miner(if blank.extranonce.Some? then blank.extranonce else m.extranonce,
          if blank.difficulty.Some? then blank.difficulty else m.difficulty,
          if clean then blank.jobs else m.jobs + blank.jobs)
  }

  lemma UponStep(m: Miner, blank: Miner, clean: bool, msg: Message)
    ensures Step(Upon(m, blank, clean), msg) == Upon(m, Step(blank, msg), clean || (msg.Notify? && msg.clean))
  {
    if msg.Notify? && !clean { assert (m.jobs + blank.jobs) + [msg] == m.jobs + (blank.jobs + [msg]); }
  }

  /** A stream has the same effect from any state, up to what it leaves alone. */
  lemma {:induction false} RunFromAnyState(m: Miner, msgs: seq<Message>)
    ensures Run(m, msgs) == Upon(m, Run(BLANK, msgs), HasClean(msgs))
    ensures Run(BLANK, msgs).difficulty.Some? <==> HasDifficulty(msgs)
    ensures Run(BLANK, msgs).extranonce.Some? <==> HasExtranonce(msgs)
  {
    if msgs == [] {
      assert m.jobs + [] == m.jobs;
    } else {
      var rest, last := msgs[..|msgs| - 1], msgs[|msgs| - 1];
      RunFromAnyState(m, rest);
      UponStep(m, Run(BLANK, rest), HasClean(rest), last);
      HasSnoc(rest, last);
      assert rest + [last] == msgs;
    }
  }

  lemma HasSnoc(rest: seq<Message>, last: Message)
    ensures HasClean(rest + [last]) <==> HasClean(rest) || (last.Notify? && last.clean)
    ensures HasDifficulty(rest + [last]) <==> HasDifficulty(rest) || last.SetDifficulty?
    ensures HasExtranonce(rest + [last]) <==> HasExtranonce(rest) || last.SetExtranonce?
  {
    var all := rest + [last];
    assert all[|rest|] == last && forall i :: 0 <= i < |rest| ==> all[i] == rest[i];
  }

  // ---- the cache

  const INITIAL_SLOTS := 100

  /** The latest difficulty, and the notifies since the last one with clean_jobs; the list starts with empty slots. */
  datatype Cache = Cache(difficulty: Option<Message>, notifies: seq<Option<Message>>)

  function EmptyCache(): Cache {
    Cache(None, seq(INITIAL_SLOTS, _ => None))
  }

  function Remember(c: Cache, msg: Message): Cache {
    match msg
    case Notify(_, clean, _) => c.(notifies := (if clean then [] else c.notifies) + [Some(msg)])
    case SetDifficulty(_) => c.(difficulty := Some(msg))
    case _ => c
  }

  function Cached(msgs: seq<Message>): Cache {
    if msgs == [] then EmptyCache() else Remember(Cached(msgs[..|msgs| - 1]), msgs[|msgs| - 1])
  }

  function Filled(slots: seq<Option<Message>>): seq<Message> {
    if slots == [] then []
    else Filled(slots[..|slots| - 1]) + (match slots[|slots| - 1] case None => [] case Some(msg) => [msg])
  }

  function AsList<T>(o: Option<T>): seq<T> {
    match o case None => [] case Some(x) => [x]
  }

  /** What is resent to a miner: the extranonce of the handshake, the difficulty and the notifies. */
  function Replay(extranonce: Message, c: Cache): seq<Message> {
    [extranonce] + AsList(c.difficulty) + Filled(c.notifies)
  }

  lemma InOrder<T>(before: seq<T>, a: seq<T>, b: seq<T>, c: seq<T>)
    ensures Same(before + a + b + c, before + (a + b + c))
  {
    assert before + a + b + c == before + (a + b + c);
  }

  lemma {:induction false} NothingFilled(slots: seq<Option<Message>>)
    requires forall i :: 0 <= i < |slots| ==> slots[i] == None
    ensures Filled(slots) == []
  {
    if slots != [] { NothingFilled(slots[..|slots| - 1]); }
  }

  lemma FilledSnoc(slots: seq<Option<Message>>, msg: Message)
    ensures Filled(slots + [Some(msg)]) == Filled(slots) + [msg]
  {
    assert (slots + [Some(msg)])[..|slots|] == slots;
  }

  /** The cache holds the difficulty and the live jobs that the stream leaves a blank miner with. */
  lemma {:induction false} CacheHoldsState(msgs: seq<Message>)
    ensures Cached(msgs).difficulty == Run(BLANK, msgs).difficulty
    ensures Filled(Cached(msgs).notifies) == Run(BLANK, msgs).jobs
  {
    if msgs == [] {
      NothingFilled(EmptyCache().notifies);
    } else {
      var rest, last := msgs[..|msgs| - 1], msgs[|msgs| - 1];
      CacheHoldsState(rest);
      RememberHoldsState(Cached(rest), Run(BLANK, rest), last);
    }
  }

  lemma RememberHoldsState(c: Cache, m: Miner, msg: Message)
    requires c.difficulty == m.difficulty && Filled(c.notifies) == m.jobs
    ensures Remember(c, msg).difficulty == Step(m, msg).difficulty
    ensures Filled(Remember(c, msg).notifies) == Step(m, msg).jobs
  {
    if msg.Notify? {
      FilledSnoc(if msg.clean then [] else c.notifies, msg);
      assert Filled([]) == [];
      assert [] + [msg] == [msg];
    }
  }

  /** Live jobs are notifies, and only the first can have ended earlier jobs. */
  ghost predicate Live(jobs: seq<Message>, clean: bool) {
    && (forall i :: 0 <= i < |jobs| ==> jobs[i].Notify? && (jobs[i].clean <==> clean && i == 0))
    && (clean ==> jobs != [])
  }

  lemma {:induction false} JobsAreLive(msgs: seq<Message>)
    ensures Live(Run(BLANK, msgs).jobs, HasClean(msgs))
  {
    if msgs != [] {
      var rest, last := msgs[..|msgs| - 1], msgs[|msgs| - 1];
      JobsAreLive(rest);
      HasSnoc(rest, last);
      assert rest + [last] == msgs;
    }
  }

  lemma LiveSnoc(rest: seq<Message>, last: Message, clean: bool)
    requires Live(rest + [last], clean)
    ensures last.Notify? && (rest == [] ==> last.clean == clean)
    ensures rest != [] ==> Live(rest, clean) && !last.clean
  {
    var jobs := rest + [last];
    assert jobs[|rest|] == last;
    assert forall i :: 0 <= i < |rest| ==> jobs[i] == rest[i];
  }

  /** Resending live jobs makes just these jobs live. */
  lemma {:induction false} LiveJobsReplay(jobs: seq<Message>, clean: bool)
    requires Live(jobs, clean)
    ensures Run(BLANK, jobs) == Miner(None, None, jobs) && (HasClean(jobs) <==> clean)
  {
    if jobs != [] {
      var rest, last := jobs[..|jobs| - 1], jobs[|jobs| - 1];
      assert rest + [last] == jobs;
      LiveSnoc(rest, last, clean);
      HasSnoc(rest, last);
      if rest == [] {
        RunOne(BLANK, last);
      } else {
        LiveJobsReplay(rest, clean);
      }
    }
  }

  /** The messages that reach a miner which follows the connection from the handshake on. */
  ghost function FullStream(extranonce: Message, msgs: seq<Message>): seq<Message> {
    [extranonce] + msgs
  }

  lemma FullStreamState(m: Miner, extranonce: Message, msgs: seq<Message>)
    requires extranonce.SetExtranonce?
    ensures Run(m, FullStream(extranonce, msgs)) ==
            Upon(m.(extranonce := Some(extranonce)), Run(BLANK, msgs), HasClean(msgs))
  {
    RunConcat(m, [extranonce], msgs);
    RunOne(m, extranonce);
    RunFromAnyState(Run(m, [extranonce]), msgs);
  }

  /** The replay sets the handshake's extranonce, and difficulty and jobs as the stream does. */
  lemma ReplayState(m: Miner, extranonce: Message, msgs: seq<Message>)
    requires extranonce.SetExtranonce?
    ensures var blank := Run(BLANK, msgs);
            Run(m, Replay(extranonce, Cached(msgs))) ==
            Upon(m, Miner(Some(extranonce), blank.difficulty, blank.jobs), HasClean(msgs))
  {
    var blank := Run(BLANK, msgs);
    var difficulty := AsList(blank.difficulty);
    CacheHoldsState(msgs);
    JobsAreLive(msgs);
    LiveJobsReplay(blank.jobs, HasClean(msgs));
    DifficultyIsSet(msgs);
    RunConcat(m, [extranonce] + difficulty, blank.jobs);
    RunConcat(m, [extranonce], difficulty);
    RunOne(m, extranonce);
    if blank.difficulty.Some? { RunOne(Run(m, [extranonce]), blank.difficulty.value); }
    RunFromAnyState(Run(m, [extranonce] + difficulty), blank.jobs);
  }

  /**
   * The replay begins with the extranonce of the handshake and ends with the live jobs, in the order in which they came.
   * A miner has that extranonce, and the last difficulty of the stream, before it is given any job.
   */
  lemma ReplaySettlesFirst(m: Miner, extranonce: Message, msgs: seq<Message>)
    requires extranonce.SetExtranonce?
    ensures var replay, blank := Replay(extranonce, Cached(msgs)), Run(BLANK, msgs);
            var first := |replay| - |blank.jobs|;
            && 1 <= first <= 2 && replay[0] == extranonce && replay[first..] == blank.jobs
            && (forall i :: 0 <= i < first ==> !replay[i].Notify?)
            && Run(m, replay[..first]) ==
               Miner(Some(extranonce), if blank.difficulty.Some? then blank.difficulty else m.difficulty, m.jobs)
  {
    var difficulty, jobs := AsList(Run(BLANK, msgs).difficulty), Run(BLANK, msgs).jobs;
    CacheHoldsState(msgs);
    DifficultyIsSet(msgs);
    var replay := Replay(extranonce, Cached(msgs));
    assert replay == ([extranonce] + difficulty) + jobs;
    assert replay[..1 + |difficulty|] == [extranonce] + difficulty && replay[1 + |difficulty|..] == jobs;
    RunConcat(m, [extranonce], difficulty);
    RunOne(m, extranonce);
    if difficulty != [] { RunOne(Step(m, extranonce), difficulty[0]); }
  }

  lemma {:induction false} DifficultyIsSet(msgs: seq<Message>)
    ensures Run(BLANK, msgs).difficulty.Some? ==> Run(BLANK, msgs).difficulty.value.SetDifficulty?
  {
    if msgs != [] { DifficultyIsSet(msgs[..|msgs| - 1]); }
  }

  /** The extranonce of the last mining.set_extranonce in the stream, or of the handshake if there is none. */
  ghost function LastExtranonce(extranonce: Message, msgs: seq<Message>): Message {
    if msgs == [] then extranonce
    else
      var last := msgs[|msgs| - 1];
      if last.SetExtranonce? then last else LastExtranonce(extranonce, msgs[..|msgs| - 1])
  }

  /** That is what the stream leaves a miner with which has been given the extranonce of the handshake. */
  lemma {:induction false} StreamLeavesLastExtranonce(m: Miner, extranonce: Message, msgs: seq<Message>)
    requires m.extranonce == Some(extranonce)
    ensures Run(m, msgs).extranonce == Some(LastExtranonce(extranonce, msgs))
  {
    if msgs != [] { StreamLeavesLastExtranonce(m, extranonce, msgs[..|msgs| - 1]); }
  }

  /**
   * Whatever state a miner is in, the replay has the same effect on it as the full stream if and only if the
   * last extranonce sent is the one of the handshake: the cache ignores mining.set_extranonce.
   */
  lemma ReplayEqualsStream(m: Miner, extranonce: Message, msgs: seq<Message>)
    requires extranonce.SetExtranonce?
    ensures Run(m, Replay(extranonce, Cached(msgs))) == Run(m, FullStream(extranonce, msgs))
            <==> LastExtranonce(extranonce, msgs) == extranonce
  {
    FullStreamState(m, extranonce, msgs);
    ReplayState(m, extranonce, msgs);
    RunConcat(m, [extranonce], msgs);
    RunOne(m, extranonce);
    StreamLeavesLastExtranonce(Step(m, extranonce), extranonce, msgs);
  }

  /** A pool that changes the extranonce after the handshake: the miner is sent the old one again. */
  lemma ReplayCanDiffer(m: Miner)
    ensures var first, second := SetExtranonce("a", 4), SetExtranonce("b", 4);
            && Run(m, FullStream(first, [second])).extranonce == Some(second)
            && Run(m, Replay(first, Cached([second]))).extranonce == Some(first)
  {
    var first, second := SetExtranonce("a", 4), SetExtranonce("b", 4);
    assert [second][..0] == [];
    FullStreamState(m, first, [second]);
    ReplayState(m, first, [second]);
    RunOne(BLANK, second);
  }

  /** In particular, it does for every stream without mining.set_extranonce. */
  lemma ReplayWithoutSetExtranonce(m: Miner, extranonce: Message, msgs: seq<Message>)
    requires extranonce.SetExtranonce? && !HasExtranonce(msgs)
    ensures Run(m, Replay(extranonce, Cached(msgs))) == Run(m, FullStream(extranonce, msgs))
  {
    RunFromAnyState(Step(m, extranonce), msgs);
    StreamLeavesLastExtranonce(Step(m, extranonce), extranonce, msgs);
    ReplayEqualsStream(m, extranonce, msgs);
  }

  /**
   * A miner that comes from another pool is brought to the state of one that has followed this pool from the
   * start, whatever state it comes from, if and only if the stream has held a notify with clean_jobs and a difficulty.
   */
  lemma ReplayErasesThePast(extranonce: Message, msgs: seq<Message>)
    requires extranonce.SetExtranonce? && !HasExtranonce(msgs)
    ensures (forall m :: Run(m, Replay(extranonce, Cached(msgs))) == Run(BLANK, FullStream(extranonce, msgs)))
            <==> HasClean(msgs) && HasDifficulty(msgs)
  {
    var replay, followed := Replay(extranonce, Cached(msgs)), Run(BLANK, FullStream(extranonce, msgs));
    RunFromAnyState(BLANK, msgs);
    FullStreamState(BLANK, extranonce, msgs);
    assert [] + Run(BLANK, msgs).jobs == Run(BLANK, msgs).jobs;
    if HasClean(msgs) && HasDifficulty(msgs) {
      forall m ensures Run(m, replay) == followed {
        ReplayState(m, extranonce, msgs);
      }
    } else {
      var other := Miner(None, Some(Other("")), [Other("")]);
      ReplayState(other, extranonce, msgs);
      if HasDifficulty(msgs) { assert |other.jobs + followed.jobs| != |followed.jobs|; }
      assert Run(other, replay) != followed;
    }
  }

  // ---- the connection

  type Handler = Message -> Option<Message>

  /** What is handed on for a message: a result is what its handler makes of it, if that is anything. */
  function Answer(handlers: map<int, Handler>, msg: Message): Message {
    if msg.Result? && msg.id in handlers && handlers[msg.id](msg).Some? then handlers[msg.id](msg).value else msg
  }

  /** Only the first result with an id is replaced, and only by what the handler of that id returns for it, if anything. */
  lemma OnlyHandledIsReplaced(handlers: map<int, Handler>, msg: Message, later: Message)
    ensures Answer(handlers, msg) != msg ==>
      msg.Result? && msg.id in handlers && handlers[msg.id](msg) == Some(Answer(handlers, msg))
    ensures msg.Result? && msg.id in handlers && handlers[msg.id](msg).Some? ==>
      Some(Answer(handlers, msg)) == handlers[msg.id](msg)
    ensures msg.Result? && later.Result? && later.id == msg.id ==> Answer(handlers - {msg.id}, later) == later
  {
  }

  class PoolConn {
    const extranonce: Message
    var notifyMsgs: seq<Option<Message>>
    var setDiffMsg: Option<Message>
    var resHandlers: map<int, Handler>
    var isReading: bool
    /** Messages handed on to the miner. */
    var msgCh: seq<Message>
    /** Everything read from the pool. */
    ghost var stream: seq<Message>

    constructor (extranonce: Message)
      requires extranonce.SetExtranonce?
      ensures Valid() && this.extranonce == extranonce && stream == [] && msgCh == [] && resHandlers == map[]
    {
      this.extranonce := extranonce;
      notifyMsgs, setDiffMsg := seq(INITIAL_SLOTS, _ => None), None;
      resHandlers, isReading, msgCh, stream := map[], false, [], [];
    }

    /** The fields hold the cache of everything read. */
    ghost predicate Valid()
      reads this
    {
      extranonce.SetExtranonce? && Cache(setDiffMsg, notifyMsgs) == Cached(stream)
    }

    method RegisterResultHandler(id: int, handler: Handler)
      requires Valid()
      modifies this`resHandlers
      ensures Valid() && resHandlers == old(resHandlers)[id := handler]
    {
      resHandlers := resHandlers[id := handler];
    }

    /**
     * Caches the message, and lets the handler registered for a result replace it. Each handler is used once;
     * when it returns nothing, the result is handed on as it is.
     */
    method ReadInterceptor(msg: Message) returns (out: Message)
      requires Valid()
      modifies this
      ensures Valid() && stream == old(stream) + [msg] && msgCh == old(msgCh) && isReading == old(isReading)
      ensures out == Answer(old(resHandlers), msg)
      ensures resHandlers == if msg.Result? then old(resHandlers) - {msg.id} else old(resHandlers)
    {
      out := msg;
      match msg {
      case Notify(_, clean, _) =>
        if clean {
          notifyMsgs := notifyMsgs[..0];
        }
        notifyMsgs := notifyMsgs + [Some(msg)];
      case SetDifficulty(_) =>
        setDiffMsg := Some(msg);
      case Result(id, _) =>
        if id in resHandlers {
          var handled := resHandlers[id](msg);
          if handled.Some? {
            out := handled.value;
          }
        }
        resHandlers := resHandlers - {id};
      case _ =>
      }
      CachedSnoc(stream, msg);
      stream := stream + [msg];
    }

    /** Reads one message; it is handed on unless emitting is on hold. */
    method Receive(msg: Message)
      requires Valid()
      modifies this
      ensures Valid() && stream == old(stream) + [msg] && isReading == old(isReading)
      ensures msgCh == if isReading then old(msgCh) + [Answer(old(resHandlers), msg)] else old(msgCh)
      ensures resHandlers == if msg.Result? then old(resHandlers) - {msg.id} else old(resHandlers)
    {
      var out := ReadInterceptor(msg);
      if isReading {
        msgCh := msgCh + [out];
      }
    }

    /**
     * Sends the cached messages to the miner. Any miner that handles them then is in the state that the whole
     * stream would have left it in, if the pool has not changed the extranonce since the handshake.
     */
    method ResendRelevantNotifications()
      requires Valid()
      modifies this`msgCh, this`isReading
      ensures Valid() && isReading
      ensures msgCh == old(msgCh) + Replay(extranonce, Cached(stream))
    {
      ghost var sent, difficulty := msgCh, AsList(setDiffMsg);
      InOrder(sent, [extranonce], difficulty, Filled(notifyMsgs));
      isReading := false;
      msgCh := msgCh + [extranonce];
      if setDiffMsg.Some? {
        msgCh := msgCh + [setDiffMsg.value];
      }
      assert difficulty == [] ==> sent + [extranonce] + difficulty == sent + [extranonce];
      ResendNotifies();
      isReading := true;
    }

    method ResendNotifies()
      modifies this`msgCh
      ensures msgCh == old(msgCh) + Filled(notifyMsgs)
    {
      var i := 0;
      ghost var sent := Filled(notifyMsgs[..0]);
      while i < |notifyMsgs|
        invariant 0 <= i <= |notifyMsgs| && sent == Filled(notifyMsgs[..i])
        invariant msgCh == old(msgCh) + sent
      {
        assert notifyMsgs[..i + 1][..i] == notifyMsgs[..i];
        if notifyMsgs[i].Some? {
          msgCh := msgCh + [notifyMsgs[i].value];
        }
        sent, i := Filled(notifyMsgs[..i + 1]), i + 1;
      }
      assert notifyMsgs[..i] == notifyMsgs;
    }
  }

  lemma CachedSnoc(msgs: seq<Message>, msg: Message)
    ensures Cached(msgs + [msg]) == Remember(Cached(msgs), msg)
  {
    assert (msgs + [msg])[..|msgs|] == msgs;
  }
}
