/** Consuming one claim of a Kafka partition: decode, run the handler under the policy, mark, or stop at a failure. */
module Consumer {
  import opened Common
  import opened Retry
  import opened Executor

  /** What running the handler on one message meets: the clock readings of Do, and the results of its attempts. */
  datatype Call = Call(t1: real, t2: real, t3: real, world: World)

  /** A message; decodes says whether its value is a JSON envelope. */
  datatype Message = Message(offset: nat, decodes: bool, call: Call)

  class Session {
    var marked: seq<nat>

    constructor ()
      ensures marked == []
    {
      marked := [];
    }

    method MarkMessage(offset: nat)
      modifies this
      ensures marked == old(marked) + [offset]
    {
      marked := marked + [offset];
    }
  }

  function Handle(cfg: Config, sh: Shared, m: Message): (Shared, Verdict)
    requires cfg.attempts > 0
  {
    DoSpec(cfg, sh, m.call.t1, m.call.t2, m.call.t3, m.call.world)
  }

  /** The executor after the first n messages; one that does not decode never reaches it. */
  function After(cfg: Config, sh: Shared, messages: seq<Message>, n: nat): Shared
    requires cfg.attempts > 0 && n <= |messages|
  {
    if n == 0 then sh
    else
      var before := After(cfg, sh, messages, n - 1);
      if messages[n - 1].decodes then Handle(cfg, before, messages[n - 1]).0 else before
  }

  /** What handling message i gives once all messages before it have gone through the executor. */
  function VerdictOf(cfg: Config, sh: Shared, messages: seq<Message>, i: nat): Verdict
    requires cfg.attempts > 0 && i < |messages|
  {
    Handle(cfg, After(cfg, sh, messages, i), messages[i]).1
  }

  /** Message i does not decode, or is handled without error. */
  predicate GetsMarked(cfg: Config, sh: Shared, messages: seq<Message>, i: nat)
    requires cfg.attempts > 0 && i < |messages|
  {
    messages[i].decodes ==> VerdictOf(cfg, sh, messages, i) == Completed(None)
  }

  function Offsets(messages: seq<Message>): seq<nat> {
    seq(|messages|, i requires 0 <= i < |messages| => messages[i].offset)
  }

  /** The claim was left after n messages, with err: stopped, exhausted, or ended by the failure of message n. */
  ghost predicate LeftAfter(cfg: Config, sh: Shared, messages: seq<Message>, stops: nat -> bool,
                            n: nat, err: Option<Verdict>)
    requires cfg.attempts > 0
  {
    && n <= |messages|
    && (forall i :: 0 <= i < n ==> !stops(i) && GetsMarked(cfg, sh, messages, i))
    && match err
       case None => stops(n) || n == |messages|
       case Some(verdict) =>
         && !stops(n) && n < |messages|
         && !GetsMarked(cfg, sh, messages, n) && verdict == VerdictOf(cfg, sh, messages, n)
  }

  class GroupHandler {
    const exec: Executor

    constructor (exec: Executor)
      ensures this.exec == exec
    {
      this.exec := exec;
    }

    /** A failed message is returned as the verdict of Do and is not marked. */
    method ConsumeMessage(sess: Session, msg: Message) returns (err: Option<Verdict>)
      requires exec.opts == Normalize(exec.opts)
      modifies sess, exec, exec.limiter, exec.breaker
      ensures !msg.decodes ==> exec.View() == old(exec.View()) && err == None
      ensures msg.decodes ==>
        && exec.View() == Handle(ConfigOf(exec.opts), old(exec.View()), msg).0
        && var verdict := Handle(ConfigOf(exec.opts), old(exec.View()), msg).1;
           err == if verdict == Completed(None) then None else Some(verdict)
      ensures sess.marked == old(sess.marked) + if err.None? then [msg.offset] else []
    {
      if !msg.decodes {
        sess.MarkMessage(msg.offset);
        return None;
      }
      var verdict := exec.Do(msg.call.t1, msg.call.t2, msg.call.t3, msg.call.world);
      if verdict != Completed(None) {
        return Some(verdict);
      }
      sess.MarkMessage(msg.offset);
      return None;
    }

    /**
     * stops(i) says that the loop sees one of the two contexts done instead of taking message i; the
     * message channel is closed after the last message.
     */
    method ConsumeClaim(sess: Session, messages: seq<Message>, stops: nat -> bool)
        returns (err: Option<Verdict>, taken: nat)
      requires exec.opts == Normalize(exec.opts)
      modifies sess, exec, exec.limiter, exec.breaker
      ensures LeftAfter(ConfigOf(exec.opts), old(exec.View()), messages, stops, taken, err)
      ensures sess.marked == old(sess.marked) + Offsets(messages[..taken])
      ensures exec.View() ==
        After(ConfigOf(exec.opts), old(exec.View()), messages, if err.None? then taken else taken + 1)
    {
      err, taken := None, 0;
      ghost var cfg, sh := ConfigOf(exec.opts), exec.View();
      while !stops(taken) && taken < |messages|
        invariant taken <= |messages| && err == None
        invariant forall i :: 0 <= i < taken ==> !stops(i) && GetsMarked(cfg, sh, messages, i)
        invariant sess.marked == old(sess.marked) + Offsets(messages[..taken])
        invariant exec.View() == After(cfg, sh, messages, taken)
        decreases |messages| - taken
      {
        err := ConsumeMessage(sess, messages[taken]);
        if err.Some? {
          return;
        }
        assert Offsets(messages[..taken + 1]) == Offsets(messages[..taken]) + [messages[taken].offset];
        taken := taken + 1;
      }
    }
  }
}
