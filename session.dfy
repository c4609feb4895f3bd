/** What one decoded packet does to a connection: the dispatch on its type in
    `channelRead0`, the login state machine of `handleLogin`, the gate at the
    top of `handleCommand`, and the packets written in answer. */
module Session {
  import opened Int32Codec
  import opened Frame
  import Utf8
  import HexFormat
  import opened Fragmenter
  import opened Router

  /** The connection's new `loggedIn`, the packets written in answer, in
      order, and whether the proxy is asked to shut down. */
  datatype Effect = Effect(loggedIn: bool, replies: seq<Packet>, shutdown: bool)

  /** The reply to a packet of a type that is neither login nor command. */
  function UnknownRequestMessage(kind: int32): string {
    "Unknown request " + HexFormat.ToHexString(kind)
  }

  /** One packet handled by a connection configured with `password` whose
      state is `loggedIn`. */
  function Dispatch(password: string, loggedIn: bool, p: Packet, env: Collaborators): Effect {
    var text := Utf8.Decode(p.payload);
    if p.kind == TYPE_LOGIN then
      if password == text then Effect(true, [Packet(p.requestId, TYPE_COMMAND, [])], false)
      else Effect(false, [Packet(FAILURE, TYPE_COMMAND, [])], false)
    else if p.kind == TYPE_COMMAND then
      if !loggedIn then Effect(loggedIn, [Packet(FAILURE, TYPE_COMMAND, [])], false)
      else
        var routed := Route(text, env);
        Effect(loggedIn, Fragment(p.requestId, routed.reply), routed.shutdown)
    else Effect(loggedIn, Fragment(p.requestId, UnknownRequestMessage(p.kind)), false)
  }

  /** The right password logs in, whatever the state before, and is answered
      by one empty COMMAND packet echoing the request id. */
  lemma LoginAccepted(password: string, loggedIn: bool, p: Packet, env: Collaborators)
    requires p.kind == TYPE_LOGIN && Utf8.Decode(p.payload) == password
    ensures Dispatch(password, loggedIn, p, env) == Effect(true, [Packet(p.requestId, TYPE_COMMAND, [])], false)
  {
  }

  /** Any other payload logs out, even a connection that was logged in, and
      is answered by one empty COMMAND packet with the FAILURE id. */
  lemma LoginRejected(password: string, loggedIn: bool, p: Packet, env: Collaborators)
    requires p.kind == TYPE_LOGIN && Utf8.Decode(p.payload) != password
    ensures Dispatch(password, loggedIn, p, env) == Effect(false, [Packet(FAILURE, TYPE_COMMAND, [])], false)
  {
  }

  /** A client that sends an ASCII password as UTF-8 logs in. */
  lemma LoginWithEncodedPassword(password: string, loggedIn: bool, requestId: int32, env: Collaborators)
    requires Utf8.IsAscii(password)
    ensures Dispatch(password, loggedIn, Packet(requestId, TYPE_LOGIN, Utf8.Encode(password)), env)
         == Effect(true, [Packet(requestId, TYPE_COMMAND, [])], false)
  {
    Utf8.DecodeEncodeAscii(password);
  }

  /** Before login a command is refused with the FAILURE reply: the state
      stays as it is and the router is never consulted, whatever the
      command and whatever its outside calls would do. */
  lemma CommandBeforeLogin(password: string, p: Packet, env: Collaborators, env': Collaborators)
    requires p.kind == TYPE_COMMAND
    ensures Dispatch(password, false, p, env) == Effect(false, [Packet(FAILURE, TYPE_COMMAND, [])], false)
    ensures Dispatch(password, false, p, env) == Dispatch(password, false, p, env')
  {
  }

  /** After login a command is routed and the router's reply is sent in
      pieces, each a RESPONSE packet with the request's id. */
  lemma CommandAfterLogin(password: string, p: Packet, env: Collaborators)
    requires p.kind == TYPE_COMMAND
    ensures var e := Dispatch(password, true, p, env);
      var routed := Route(Utf8.Decode(p.payload), env);
      && e.loggedIn
      && e.shutdown == routed.shutdown
      && Payloads(e.replies) == Utf8.Encode(routed.reply)
      && forall q :: q in e.replies ==> q.requestId == p.requestId && q.kind == TYPE_RESPONSE
  {
    var routed := Route(Utf8.Decode(p.payload), env);
    FragmentPayloads(p.requestId, routed.reply);
    FragmentIds(p.requestId, routed.reply);
  }

  lemma FragmentIds(requestId: int32, s: string)
    ensures forall q :: q in Fragment(requestId, s) ==> q.requestId == requestId && q.kind == TYPE_RESPONSE
  {
    if s == [] {
      FragmentEmpty(requestId);
    } else {
      FragmentNonEmpty(requestId, s);
    }
  }

  /** A packet of any other type is answered by a single RESPONSE packet
      naming the type in hexadecimal; the state is untouched. */
  lemma UnknownTypeAnswered(password: string, loggedIn: bool, p: Packet, env: Collaborators)
    requires p.kind != TYPE_LOGIN && p.kind != TYPE_COMMAND
    ensures Dispatch(password, loggedIn, p, env)
         == Effect(loggedIn, [ResponsePacket(p.requestId, UnknownRequestMessage(p.kind))], false)
  {
    HexFormat.ToHexStringSpec(p.kind);
    FragmentShort(p.requestId, UnknownRequestMessage(p.kind));
  }

  /** Type 99 is reported as "Unknown request 63". */
  lemma UnknownTypeExample(password: string, loggedIn: bool, requestId: int32, payload: seq<byte>, env: Collaborators)
    ensures Dispatch(password, loggedIn, Packet(requestId, 99, payload), env).replies
         == [ResponsePacket(requestId, "Unknown request " + "63")]
  {
    UnknownTypeAnswered(password, loggedIn, Packet(requestId, 99, payload), env);
    HexFormat.ToHexStringExamples();
  }

  /** No request goes unanswered, and every answer carries either the
      request's own id or the FAILURE id. */
  lemma EveryPacketAnswered(password: string, loggedIn: bool, p: Packet, env: Collaborators)
    ensures var e := Dispatch(password, loggedIn, p, env);
      && |e.replies| >= 1
      && forall q :: q in e.replies ==> q.requestId == p.requestId || q.requestId == FAILURE
  {
    var e := Dispatch(password, loggedIn, p, env);
    if p.kind == TYPE_COMMAND && loggedIn {
      var reply := Route(Utf8.Decode(p.payload), env).reply;
      FragmentIds(p.requestId, reply);
      if reply != [] { FragmentNonEmpty(p.requestId, reply); }
    } else if p.kind != TYPE_LOGIN && p.kind != TYPE_COMMAND {
      UnknownTypeAnswered(password, loggedIn, p, env);
    }
  }

  /** Only a login packet changes the state, and a connection is logged in
      afterwards exactly when that packet carried the password or, for any
      other packet, when it was logged in before. */
  lemma LoggedInOnlyByPassword(password: string, loggedIn: bool, p: Packet, env: Collaborators)
    ensures var e := Dispatch(password, loggedIn, p, env);
      && (p.kind != TYPE_LOGIN ==> e.loggedIn == loggedIn)
      && (p.kind == TYPE_LOGIN ==> (e.loggedIn <==> Utf8.Decode(p.payload) == password))
  {
  }

  /** Only a logged-in connection can shut the proxy down, and only with a
      command that is "end" or "stop" in some case. */
  lemma ShutdownOnlyWhenLoggedIn(password: string, loggedIn: bool, p: Packet, env: Collaborators)
    ensures Dispatch(password, loggedIn, p, env).shutdown
        <==> loggedIn && p.kind == TYPE_COMMAND && IsShutdownWord(Utf8.Decode(p.payload))
  {
    if p.kind == TYPE_COMMAND && loggedIn {
      RouteShutdown(Utf8.Decode(p.payload), env);
    }
  }

  /** What one packet does to a connection, as a function of its state
      before the packet. */
  type PacketStep = (bool, Packet, Collaborators) -> Effect

  /** The handler of a connection configured with `password`. */
  function Serve(password: string): PacketStep {
    (loggedIn: bool, p: Packet, env: Collaborators) => Dispatch(password, loggedIn, p, env)
  }

  /** A connection's lifetime: the packets it reads, in order, each with the
      results of its own outside calls. */
  function Run(step: PacketStep, loggedIn: bool, packets: seq<Packet>, envs: seq<Collaborators>): Effect
    requires |envs| == |packets|
    decreases |packets|
  {
    if packets == [] then Effect(loggedIn, [], false)
    else
      var e := step(loggedIn, packets[0], envs[0]);
      var rest := Run(step, e.loggedIn, packets[1..], envs[1..]);
      Effect(rest.loggedIn, e.replies + rest.replies, e.shutdown || rest.shutdown)
  }

  predicate NoLogin(packets: seq<Packet>) {
    forall i :: 0 <= i < |packets| ==> packets[i].kind != TYPE_LOGIN
  }

  /** Reading `a` then `b` is reading `a + b`: the state carries over and
      the replies are written in order. */
  lemma {:induction false} RunAppend(step: PacketStep, loggedIn: bool, a: seq<Packet>, b: seq<Packet>,
                                     envA: seq<Collaborators>, envB: seq<Collaborators>)
    requires |envA| == |a| && |envB| == |b|
    ensures var ea := Run(step, loggedIn, a, envA);
      var eb := Run(step, ea.loggedIn, b, envB);
      Run(step, loggedIn, a + b, envA + envB)
        == Effect(eb.loggedIn, ea.replies + eb.replies, ea.shutdown || eb.shutdown)
    decreases |a|
  {
    if a == [] {
      assert a + b == b && envA + envB == envB;
    } else {
      var e := step(loggedIn, a[0], envA[0]);
      RunAppend(step, e.loggedIn, a[1..], b, envA[1..], envB);
      assert (a + b)[1..] == a[1..] + b;
      assert (envA + envB)[1..] == envA[1..] + envB;
      var ea' := Run(step, e.loggedIn, a[1..], envA[1..]);
      var eb := Run(step, ea'.loggedIn, b, envB);
      assert e.replies + (ea'.replies + eb.replies) == (e.replies + ea'.replies) + eb.replies;
    }
  }

  /** Packets without a login leave the state as it was. */
  lemma {:induction false} NoLoginKeepsState(password: string, loggedIn: bool, packets: seq<Packet>, envs: seq<Collaborators>)
    requires |envs| == |packets| && NoLogin(packets)
    ensures Run(Serve(password), loggedIn, packets, envs).loggedIn == loggedIn
    decreases |packets|
  {
    if packets != [] {
      assert packets[0].kind != TYPE_LOGIN;
      LoggedInOnlyByPassword(password, loggedIn, packets[0], envs[0]);
      NoLoginKeepsState(password, loggedIn, packets[1..], envs[1..]);
    }
  }

  /** Whatever came before, the last login packet alone decides whether the
      connection is logged in: it is exactly when that packet carried the
      password. */
  lemma LastLoginDecides(password: string, loggedIn: bool, before: seq<Packet>, login: Packet, after: seq<Packet>,
                         envs: seq<Collaborators>)
    requires login.kind == TYPE_LOGIN && NoLogin(after)
    requires |envs| == |before| + 1 + |after|
    ensures Run(Serve(password), loggedIn, before + [login] + after, envs).loggedIn
        <==> Utf8.Decode(login.payload) == password
  {
    var step := Serve(password);
    var n := |before|;
    var envsBefore, envLogin, envsAfter := envs[..n], envs[n..n + 1], envs[n + 1..];
    assert envs == envsBefore + envLogin + envsAfter;
    RunAppend(step, loggedIn, before, [login], envsBefore, envLogin);
    var mid := Run(step, loggedIn, before + [login], envsBefore + envLogin);
    var atLogin := Run(step, loggedIn, before, envsBefore).loggedIn;
    LoggedInOnlyByPassword(password, atLogin, login, envLogin[0]);
    assert mid.loggedIn == (Utf8.Decode(login.payload) == password);
    RunAppend(step, loggedIn, before + [login], after, envsBefore + envLogin, envsAfter);
    NoLoginKeepsState(password, mid.loggedIn, after, envsAfter);
  }

  /** A client that never sends the password never gets a command through:
      the connection stays logged out, the proxy is not shut down, and the
      replies do not depend on any outside call. */
  lemma {:induction false} WithoutPasswordNothingRuns(password: string, packets: seq<Packet>,
                                                      envs: seq<Collaborators>, envs': seq<Collaborators>)
    requires |envs| == |packets| && |envs'| == |packets|
    requires forall i :: 0 <= i < |packets| && packets[i].kind == TYPE_LOGIN ==> Utf8.Decode(packets[i].payload) != password
    ensures var e := Run(Serve(password), false, packets, envs);
      && !e.loggedIn && !e.shutdown
      && e == Run(Serve(password), false, packets, envs')
    decreases |packets|
  {
    if packets != [] {
      var p := packets[0];
      assert p.kind == TYPE_LOGIN ==> Utf8.Decode(p.payload) != password;
      assert Dispatch(password, false, p, envs[0]) == Dispatch(password, false, p, envs'[0]);
      assert !Dispatch(password, false, p, envs[0]).loggedIn;
      WithoutPasswordNothingRuns(password, packets[1..], envs[1..], envs'[1..]);
    }
  }
}
