/** The control pipeline: a sender and a reader task sharing a window of permits, and the node at the
    other end of the connection, in every interleaving. */
module Window {

  const WINDOW: nat := 16

  type Line = string

  predicate IsErrorReply(reply: Line) {
    reply == "err" || "err " <= reply
  }

  /** Where `send_all` is: taking the next line, writing a batch, waiting for a permit, or returned. */
  datatype Sender = Taking | Writing(thenWait: bool) | Waiting | Sent | Failed

  /** `pending` is what the current call has yet to take, `batch` what it took and has not written,
      `wire` the lines written and not answered, `back` the replies not read yet. The last six
      keep a record: every line given to a call, every line written, every reply given, every reply
      read, how many lines failed calls dropped after they took a permit, and how many calls failed. */
  datatype State = State(
    sender: Sender, pending: seq<Line>, batch: seq<Line>,
    permits: nat, closed: bool, replies: nat, errors: nat,
    wire: seq<Line>, back: seq<Line>,
    asked: seq<Line>, written: seq<Line>, answered: seq<Line>, read: seq<Line>, lost: nat, failures: nat)

  const START := State(Sent, [], [], WINDOW, false, 0, 0, [], [], [], [], [], [], 0, 0)

  datatype Action =
    | Call(lines: seq<Line>)   // a new `send_all`
    | TakePermit               // `try_acquire` gives a permit and the line joins the batch
    | FindNoPermit             // `try_acquire` finds none: flush, then wait
    | FindClosed               // `try_acquire` finds the window closed
    | FinishTaking             // no line is left: flush, then return
    | WriteLine                // the flush gets one more line out
    | EndWrite                 // the flush is complete
    | FailWrite                // the flush fails; the batch is cleared all the same
    | WakeWithPermit           // the wait ends with a permit
    | WakeClosed               // the wait ends on a closed window
    | Answer(reply: Line)      // the node answers the oldest line it has
    | ReadReply                // the reader counts a reply and frees a place
    | Close                    // the stream ends: the reader closes the window

  predicate Enabled(s: State, a: Action) {
    match a
    case Call(_) => s.sender == Sent || s.sender == Failed
    case TakePermit => s.sender == Taking && s.pending != [] && !s.closed && s.permits > 0
    case FindNoPermit => s.sender == Taking && s.pending != [] && !s.closed && s.permits == 0
    case FindClosed => s.sender == Taking && s.pending != [] && s.closed
    case FinishTaking => s.sender == Taking && s.pending == []
    case WriteLine => s.sender.Writing? && s.batch != []
    case EndWrite => s.sender.Writing? && s.batch == []
    case FailWrite => s.sender.Writing? && s.batch != []
    case WakeWithPermit => s.sender == Waiting && s.pending != [] && !s.closed && s.permits > 0
    case WakeClosed => s.sender == Waiting && s.closed
    case Answer(_) => s.wire != []
    case ReadReply => s.back != [] && !s.closed
    case Close => !s.closed
  }

  /** A failed call drops what it had taken and what it had left. */
  function Fail(s: State): State {
    s.(sender := Failed, batch := [], pending := [], lost := s.lost + |s.batch|, failures := s.failures + 1)
  }

  /** The state after an enabled action. */
  function After(s: State, a: Action): State
    requires Enabled(s, a)
  {
    match a
    case Call(lines) =>
      s.(sender := Taking, pending := lines, batch := [], asked := s.asked + lines)
    case TakePermit =>
      s.(permits := s.permits - 1, batch := s.batch + [s.pending[0]], pending := s.pending[1..])
    case FindNoPermit => s.(sender := Writing(true))
    case FindClosed => Fail(s)
    case FinishTaking => s.(sender := Writing(false))
    case WriteLine =>
      s.(batch := s.batch[1..], wire := s.wire + [s.batch[0]], written := s.written + [s.batch[0]])
    case EndWrite => s.(sender := if s.sender.thenWait then Waiting else Sent)
    case FailWrite => Fail(s)
    case WakeWithPermit =>
      s.(sender := Taking, permits := s.permits - 1, batch := s.batch + [s.pending[0]], pending := s.pending[1..])
    case WakeClosed => Fail(s)
    case Answer(reply) => s.(wire := s.wire[1..], back := s.back + [reply], answered := s.answered + [reply])
    case ReadReply =>
      s.(back := s.back[1..], replies := s.replies + 1,
         errors := s.errors + (if IsErrorReply(s.back[0]) then 1 else 0), permits := s.permits + 1,
         read := s.read + [s.back[0]])
    case Close => s.(closed := true)
  }

  // ----- what every interleaving keeps

  /** No permit is made or lost: each is free, held by a line in the batch, held by a line on its way
      out and back, or was lost to a failed call. */
  ghost predicate Conserved(s: State) {
    s.permits + |s.batch| + |s.wire| + |s.back| + s.lost == WINDOW
  }

  /** Where the sender is says what it holds. */
  ghost predicate Shaped(s: State) {
    && (s.sender == Waiting ==> s.batch == [] && s.pending != [])
    && (s.sender == Writing(true) ==> s.pending != [])
    && (s.sender == Writing(false) ==> s.pending == [])
    && (s.sender == Sent || s.sender == Failed ==> s.batch == [] && s.pending == [])
  }

  function CountErrors(replies: seq<Line>): nat {
    if replies == [] then 0
    else CountErrors(replies[..|replies| - 1]) + (if IsErrorReply(replies[|replies| - 1]) then 1 else 0)
  }

  /** The tally counts the replies read and the errors among them; replies are read in the order they
      were given; and reply `k` answers line `k`, the lines without one being those still out. */
  ghost predicate Tallied(s: State) {
    && s.replies == |s.read| && s.errors == CountErrors(s.read)
    && s.answered == s.read + s.back
    && |s.answered| <= |s.written| && s.wire == s.written[|s.answered|..]
  }

  /** The replies that are `err`, or `err` and a space and more. */
  ghost function ErrorReplies(replies: seq<Line>): set<nat> {
    set i | 0 <= i < |replies|
            && |replies[i]| >= 3 && replies[i][0] == 'e' && replies[i][1] == 'r' && replies[i][2] == 'r'
            && (|replies[i]| == 3 || replies[i][3] == ' ')
  }

  lemma {:induction false} ErrorsAreCounted(replies: seq<Line>)
    ensures CountErrors(replies) == |ErrorReplies(replies)|
  {
    if replies != [] {
      var n := |replies| - 1;
      var init := replies[..n];
      ErrorsAreCounted(init);
      ErrorReplyIs(replies[n]);
      forall i | 0 <= i < n ensures init[i] == replies[i] {}
      hide IsErrorReply;
      if n in ErrorReplies(replies) {
        assert ErrorReplies(replies) == ErrorReplies(init) + {n};
      } else {
        assert ErrorReplies(replies) == ErrorReplies(init);
      }
    }
  }

  lemma ErrorReplyIs(reply: Line)
    ensures IsErrorReply(reply)
            <==> && |reply| >= 3 && reply[0] == 'e' && reply[1] == 'r' && reply[2] == 'r'
                 && (|reply| == 3 || reply[3] == ' ')
  {
    if |reply| >= 3 {
      assert reply[..3] == [reply[0], reply[1], reply[2]];
    }
  }

  /** While no call has failed, no permit is lost, and the lines asked for are the lines written,
      then those in the batch, then those still to take: each once, in order. */
  ghost predicate Ordered(s: State) {
    s.failures == 0 ==> s.lost == 0 && s.asked == s.written + s.batch + s.pending
  }

  ghost predicate Inv(s: State) { Conserved(s) && Shaped(s) && Tallied(s) && Ordered(s) }

  lemma StepKeeps(s: State, a: Action)
    requires Inv(s) && Enabled(s, a)
    ensures Inv(After(s, a))
  {
    StepCounts(s, a);
    StepTallies(s, a);
    StepOrders(s, a);
  }

  lemma StepCounts(s: State, a: Action)
    requires Conserved(s) && Shaped(s) && Enabled(s, a)
    ensures Conserved(After(s, a)) && Shaped(After(s, a))
  {}

  lemma StepTallies(s: State, a: Action)
    requires Tallied(s) && Enabled(s, a)
    ensures Tallied(After(s, a))
  {
    hide IsErrorReply;
    var t := After(s, a);
    if a.ReadReply? {
      assert (s.read + [s.back[0]])[..|s.read|] == s.read;
    }
    assert t.answered == t.read + t.back;
    assert t.wire == t.written[|t.answered|..];
  }

  lemma StepOrders(s: State, a: Action)
    requires Shaped(s) && Ordered(s) && Enabled(s, a)
    ensures Ordered(After(s, a))
  {
    var t := After(s, a);
    if s.failures == 0 && t.failures == 0 {
      assert t.asked == t.written + t.batch + t.pending;
    }
  }

  /** `t` is where a run of `actions`, each enabled in its turn, takes `s`. */
  ghost predicate Reaches(s: State, actions: seq<Action>, t: State)
    decreases |actions|
  {
    if actions == [] then s == t
    else Enabled(s, actions[0]) && Reaches(After(s, actions[0]), actions[1..], t)
  }

  lemma {:induction false} RunKeeps(s: State, actions: seq<Action>, t: State)
    requires Inv(s) && Reaches(s, actions, t)
    ensures Inv(t)
    decreases |actions|
  {
    if actions != [] {
      StepKeeps(s, actions[0]);
      RunKeeps(After(s, actions[0]), actions[1..], t);
    }
  }

  /** In every interleaving: permits are conserved, at most a window of lines is ever out, replies and
      lines tally, and until a call fails every line asked for is written once, in order. */
  lemma EveryRunKeeps(actions: seq<Action>, t: State)
    requires Reaches(START, actions, t)
    ensures Conserved(t) && Shaped(t) && Tallied(t) && Ordered(t)
    ensures |t.wire| + |t.back| <= 16
    ensures t.replies == |t.read| && t.errors == |ErrorReplies(t.read)|
    ensures t.failures == 0 ==> t.permits + |t.batch| + |t.wire| + |t.back| == 16
    ensures t.failures == 0 && t.sender == Sent ==> t.written == t.asked
  {
    RunKeeps(START, actions, t);
    ErrorsAreCounted(t.read);
  }

  /** A sender that has to wait has nothing left to write and the whole window out, less what failed
      calls lost: it never waits on itself. */
  lemma WaitingMeansFullWindow(actions: seq<Action>, t: State)
    requires Reaches(START, actions, t) && t.sender == Waiting && t.permits == 0
    ensures t.batch == [] && |t.wire| + |t.back| == 16 - t.lost
    ensures t.failures == 0 ==> |t.wire| + |t.back| == 16
  {
    EveryRunKeeps(actions, t);
  }

  /** The sender's own actions. */
  predicate BySender(a: Action) { !a.Call? && !a.Answer? && !a.ReadReply? && !a.Close? }

  /** Some action of the sender's is enabled. */
  ghost predicate CanMove(s: State) { exists a :: BySender(a) && Enabled(s, a) }

  lemma MoveIs(s: State, a: Action)
    requires BySender(a) && Enabled(s, a)
    ensures CanMove(s)
  {}

  /** A call in progress can always move, unless it waits on an open window with no permit. Then a
      reply can be read or the node can answer, exactly if failed calls have not lost every permit. */
  lemma NeverStuck(actions: seq<Action>, t: State, reply: Line)
    requires Reaches(START, actions, t) && t.sender != Sent && t.sender != Failed
    ensures CanMove(t) || (t.sender == Waiting && !t.closed && t.permits == 0)
    ensures !CanMove(t) ==> (Enabled(t, ReadReply) || Enabled(t, Answer(reply)) <==> t.lost < WINDOW)
    ensures !CanMove(t) && t.lost == WINDOW ==> forall a :: Enabled(t, a) ==> a == Close
  {
    hide After, Tallied, Ordered;
    EveryRunKeeps(actions, t);
    match t.sender {
      case Taking =>
        MoveIs(t, if t.pending == [] then FinishTaking else if t.closed then FindClosed
                  else if t.permits > 0 then TakePermit else FindNoPermit);
      case Writing(_) =>
        MoveIs(t, if t.batch == [] then EndWrite else WriteLine);
      case Waiting =>
        if t.closed {
          MoveIs(t, WakeClosed);
        } else if t.permits > 0 {
          MoveIs(t, WakeWithPermit);
        }
    }
  }

  /** What frees a waiting sender: a reply read, which an answer always allows, or a close. */
  lemma WaitingIsFreed(actions: seq<Action>, t: State, reply: Line)
    requires Reaches(START, actions, t) && t.sender == Waiting && !t.closed
    ensures Enabled(t, Answer(reply)) ==> Enabled(After(t, Answer(reply)), ReadReply)
    ensures Enabled(t, ReadReply) ==> CanMove(After(t, ReadReply))
    ensures CanMove(After(t, Close))
  {
    hide IsErrorReply, Tallied, Ordered;
    EveryRunKeeps(actions, t);
    MoveIs(After(t, Close), WakeClosed);
    if Enabled(t, ReadReply) {
      MoveIs(After(t, ReadReply), WakeWithPermit);
    }
  }

  // ----- a call that hangs

  lemma {:induction false} ReachesJoin(s: State, first: seq<Action>, m: State, second: seq<Action>, t: State)
    requires Reaches(s, first, m) && Reaches(m, second, t)
    ensures Reaches(s, first + second, t)
    decreases |first|
  {
    hide After, Enabled;
    if first == [] {
      assert first + second == second;
    } else {
      assert (first + second)[1..] == first[1..] + second;
      ReachesJoin(After(s, first[0]), first[1..], m, second, t);
    }
  }

  lemma ReachesNow(s: State)
    ensures Reaches(s, [], s)
  {}

  lemma ReachesFirst(s: State, a: Action, rest: seq<Action>, t: State)
    requires Enabled(s, a) && Reaches(After(s, a), rest, t)
    ensures Reaches(s, [a] + rest, t)
  {
    hide After, Enabled;
    assert ([a] + rest)[1..] == rest;
  }

  /** With permits enough, a call takes all its lines before it writes any. */
  lemma {:induction false} TakesAll(s: State) returns (actions: seq<Action>)
    requires s.sender == Taking && !s.closed && s.permits >= |s.pending|
    ensures Reaches(s, actions, s.(permits := s.permits - |s.pending|, batch := s.batch + s.pending, pending := []))
    decreases |s.pending|
  {
    if s.pending == [] {
      actions := [];
      assert s.batch + s.pending == s.batch;
    } else {
      var next := After(s, TakePermit);
      assert next.batch + next.pending == s.batch + s.pending;
      var rest := TakesAll(next);
      actions := [TakePermit] + rest;
      assert actions[1..] == rest;
    }
  }

  /** A flush that fails with a full window in the batch hangs the next call: its permits are gone, so
      the call waits with nothing on the wire, and only a close ends the wait. */
  lemma LostWindowHangs(lines: seq<Line>, line: Line) returns (actions: seq<Action>, t: State)
    requires |lines| == WINDOW
    ensures Reaches(START, actions, t) && t.sender == Waiting && t.wire == t.back == [] && t.lost == WINDOW
    ensures forall a :: Enabled(t, a) ==> a == Close
  {
    var called := After(START, Call(lines));
    var takes := TakesAll(called);
    var full := called.(permits := 0, batch := [] + lines, pending := []);
    actions, t := HangsAfter(full, line);
    ReachesJoin(called, takes, full, actions, t);
    actions := takes + actions;
    ReachesFirst(START, Call(lines), actions, t);
    actions := [Call(lines)] + actions;
  }

  /** A call with a whole window in its batch fails to write any of it, and the next one waits. */
  lemma HangsAfter(full: State, line: Line) returns (actions: seq<Action>, t: State)
    requires Conserved(full) && full.sender == Taking && full.pending == [] && |full.batch| == WINDOW && !full.closed
    ensures Reaches(full, actions, t) && t.sender == Waiting && t.wire == t.back == [] && t.lost == WINDOW
    ensures forall a :: Enabled(t, a) ==> a == Close
  {
    hide Reaches;
    var flushing := After(full, FinishTaking);
    var failed := After(flushing, FailWrite);
    var again := After(failed, Call([line]));
    var refused := After(again, FindNoPermit);
    t := After(refused, EndWrite);
    ReachesNow(t);
    ReachesFirst(refused, EndWrite, [], t);
    ReachesFirst(again, FindNoPermit, [EndWrite] + [], t);
    ReachesFirst(failed, Call([line]), [FindNoPermit] + ([EndWrite] + []), t);
    ReachesFirst(flushing, FailWrite, [Call([line])] + ([FindNoPermit] + ([EndWrite] + [])), t);
    actions := [FailWrite] + ([Call([line])] + ([FindNoPermit] + ([EndWrite] + [])));
    ReachesFirst(full, FinishTaking, actions, t);
    actions := [FinishTaking] + actions;
  }

  // ----- a closed window

  /** A closed connection fails every later send: from a closed window no run writes anything but what
      was taken before the close. */
  lemma {:induction false} ClosedWritesNothing(s: State, actions: seq<Action>, t: State)
    requires s.closed && Reaches(s, actions, t)
    ensures t.closed && t.replies == s.replies
    ensures s.written <= t.written <= s.written + s.batch
    decreases |actions|
  {
    if actions != [] {
      var next := After(s, actions[0]);
      assert s.written <= next.written && next.written + next.batch <= s.written + s.batch;
      ClosedWritesNothing(next, actions[1..], t);
    }
  }
}
