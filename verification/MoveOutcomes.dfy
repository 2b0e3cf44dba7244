/** How a move goes, from the errors of its own system calls alone; the numbers are
    those of errno.h. */
module MoveOutcomes {
  import opened Wrappers
  import opened TrashMoves

  /** The errors of the mover's calls in a run, 0 for success. */
  function Errnos(es: seq<Event>, i: nat): seq<nat> {
    if es == [] then []
    else (if es[0].Call? && es[0].mover == i then [es[0].errno] else []) + Errnos(es[1..], i)
  }

  /** The kernel or the file system does not know about rename flags. */
  predicate Falls(errno: nat) {
    errno == 22 || errno == 38 || errno == 95
  }

  /** The move with the flag, or one way or the other after it was refused: the
      source looked at, a name reserved, the reservation looked at twice, renamed. */
  predicate Moves(l: seq<nat>) {
    l == [0] || (|l| == 6 && Falls(l[0]) && l[1] == 0 && l[2] == 0 && l[3] == 0 && l[4] == 0 && l[5] == 0)
  }

  /** The calls that end a move with `error`: the first that fails, where the first
      of all may also be refused, and none after it, unless a name was reserved and
      looked at; then the reservation is looked at again and removed. */
  predicate FailsWith(l: seq<nat>, error: nat) {
    && error != 0 && l != []
    && (if !Falls(l[0]) then l == [error]
        else
          || (|l| == 2 && l[1] == error)
          || (|l| == 3 && l[1] == 0 && l[2] == error)
          || (|l| == 4 && l[1] == 0 && l[2] == 0 && l[3] == error)
          || (|l| >= 5 && l[1] == 0 && l[2] == 0 && l[3] == 0 && l[4] == error && CleansUp(l[5..]))
          || (|l| >= 6 && l[1] == 0 && l[2] == 0 && l[3] == 0 && l[4] == 0 && l[5] == error && CleansUp(l[6..])))
  }

  predicate CleansUp(l: seq<nat>) {
    (|l| == 1 && l[0] != 0) || (|l| == 2 && l[0] == 0)
  }

  /** Where a mover is after calls with these errors. */
  ghost predicate At(l: seq<nat>, pc: Pc) {
    match pc
    case RenameExclusive => l == []
    case StatSource => |l| == 1 && Falls(l[0])
    case Reserve(_) => |l| == 2 && Falls(l[0]) && l[1] == 0
    case StatReservation(_, _) => |l| == 3 && Falls(l[0]) && l[1] == 0 && l[2] == 0
    case Compare(_, _) => |l| == 4 && Falls(l[0]) && l[1] == 0 && l[2] == 0 && l[3] == 0
    case Rename(_, _) => |l| == 5 && Falls(l[0]) && l[1] == 0 && l[2] == 0 && l[3] == 0 && l[4] == 0
    case Recheck(_, _, e) => Failed(l, e)
    case Remove(_, e) => |l| > 0 && Failed(l[..|l| - 1], e) && l[|l| - 1] == 0
    case Done(e) => if e == 0 then Moves(l) else FailsWith(l, e)
  }

  predicate Failed(l: seq<nat>, e: nat) {
    && 5 <= |l| <= 6 && Falls(l[0]) && l[1] == 0 && l[2] == 0 && l[3] == 0 && e != 0
    && (if |l| == 5 then l[4] == e else l[4] == 0 && l[5] == e)
  }

  lemma FailureAt(l: seq<nat>, m: Mover, errno: nat)
    requires At(l, m.pc) && !m.pc.Done? && errno != 0
    ensures At(l + [errno], AfterFailure(m, errno).pc)
  {
    var more := l + [errno];
    if Failed(l, ErrorOf(m.pc)) {
      assert more[|l|..] == [errno];
    }
    if m.pc.Remove? {
      assert more[|l| - 1..] == [0, errno];
    }
  }

  /** The reservation is where it was made. */
  lemma LookMatches(fs: map<Name, Object>, m: Mover, i: nat, src: Option<Object>, ino: nat)
    requires MoverOk(fs, m, i, src) && CanSucceed(fs, m, ino)
    ensures m.pc.Compare? || m.pc.Recheck? ==> Inode(fs, m, ino) == m.pc.reserved
    ensures m.pc.Recheck? || m.pc.Remove? ==> m.pc.error != 0
  {
  }

  lemma SuccessAt(l: seq<nat>, fs: map<Name, Object>, m: Mover, i: nat, src: Option<Object>, ino: nat)
    requires At(l, m.pc) && !m.pc.Done? && MoverOk(fs, m, i, src) && CanSucceed(fs, m, ino)
    ensures At(l + [0], AfterSuccess(fs, m, ino))
  {
    LookMatches(fs, m, i, src, ino);
    hide MoverOk, CanSucceed, Inode;
    var more := l + [0];
    if m.pc.Recheck? {
      assert more[..|more| - 1] == l;
    }
    if m.pc.Remove? {
      assert more[|l| - 1..] == [0, 0];
    }
  }

  lemma StepAt(s: State, srcs: Sources, e: Event, i: nat, l: seq<nat>)
    requires Inv(s, srcs) && Enabled(s, e) && i < |s.movers| && At(l, s.movers[i].pc)
    ensures |Step(s, e).movers| == |s.movers|
    ensures At(l + Errnos([e], i), Step(s, e).movers[i].pc)
  {
    assert Errnos([e], i) == if e.Call? && e.mover == i then [e.errno] else [];
    assert l + [] == l;
    if e.Call? && e.mover == i {
      if e.errno != 0 {
        FailureAt(l, s.movers[i], e.errno);
      } else {
        SuccessAt(l, s.fs, s.movers[i], i, srcs[i], e.ino);
      }
    }
  }

  lemma {:induction false} RunAt(s: State, srcs: Sources, es: seq<Event>, i: nat, l: seq<nat>)
    requires Inv(s, srcs) && RunOk(s, es) && i < |s.movers| && At(l, s.movers[i].pc)
    ensures |Exec(s, es).movers| == |s.movers|
    ensures At(l + Errnos(es, i), Exec(s, es).movers[i].pc)
    decreases |es|
  {
    assert |srcs| == |s.movers|;
    hide At, Inv, Step, Enabled, Errnos, Appear;
    FirstErrno(es, i, l);
    if es != [] {
      StepInv(s, srcs, es[0]);
      StepAt(s, srcs, es[0], i, l);
      RunAt(Step(s, es[0]), Appear(s, srcs, es[0]), es[1..], i, l + Errnos([es[0]], i));
    }
  }

  lemma FirstErrno(es: seq<Event>, i: nat, l: seq<nat>)
    ensures l + Errnos(es, i) == if es == [] then l else l + Errnos([es[0]], i) + Errnos(es[1..], i)
  {
    if es != [] {
      assert [es[0]][1..] == [];
    }
  }

  /** A mover has finished exactly when its calls went one of the ways in which a
      move succeeds, and then its source is at the destination, or one of those in
      which it fails, with that error; calls that went otherwise are not all yet. So
      it makes progress, with the flag or without: nothing but a failed call of its
      own keeps a mover from its destination. */
  lemma EndsAsItsCalls(s: State, srcs: Sources, es: seq<Event>, i: nat)
    requires Init(s, srcs) && RunOk(s, es) && i < |s.movers|
    ensures var t, after, l := Exec(s, es), Appeared(s, srcs, es), Errnos(es, i);
      && |t.movers| == |s.movers| == |after|
      && (t.movers[i].pc == Done(0) <==>
            l == [0] ||
            (|l| == 6 && (l[0] == 22 || l[0] == 38 || l[0] == 95)
             && l[1] == 0 && l[2] == 0 && l[3] == 0 && l[4] == 0 && l[5] == 0))
      && (t.movers[i].pc == Done(0) ==>
            after[i].Some? && t.movers[i].to in t.fs && t.fs[t.movers[i].to] == after[i].value)
      && (forall e :: e != 0 ==> (t.movers[i].pc == Done(e) <==> FailsWith(l, e)))
      && (l != [] && l[0] != 0 && l[0] != 22 && l[0] != 38 && l[0] != 95 ==>
            l == [l[0]] && t.movers[i].pc == Done(l[0]))
  {
    InitInv(s, srcs);
    RunAt(s, srcs, es, i, []);
    assert [] + Errnos(es, i) == Errnos(es, i);
    OneEnd(Errnos(es, i), Exec(s, es).movers[i].pc);
    hide At, Inv, Init, FailsWith;
    NoClobber(s, srcs, es);
  }

  lemma OneEnd(l: seq<nat>, pc: Pc)
    requires At(l, pc)
    ensures pc == Done(0) <==>
      l == [0] ||
      (|l| == 6 && (l[0] == 22 || l[0] == 38 || l[0] == 95)
       && l[1] == 0 && l[2] == 0 && l[3] == 0 && l[4] == 0 && l[5] == 0)
    ensures forall e :: e != 0 ==> (pc == Done(e) <==> FailsWith(l, e))
    ensures l != [] && l[0] != 0 && l[0] != 22 && l[0] != 38 && l[0] != 95 ==> l == [l[0]] && pc == Done(l[0])
  {
    if pc.Remove? {
      assert forall k :: 0 <= k < |l| - 1 ==> l[..|l| - 1][k] == l[k];
    }
  }

  // ----- moves that can be made

  /** With the source there and the destination free a move can succeed at once, or
      on the way without rename flags, whatever else is in the file system. */
  lemma CanMove(s: State, srcs: Sources, i: nat, errno: nat, ino: nat)
    requires Init(s, srcs) && i < |s.movers| && !Live(s.fs, ino)
    requires s.movers[i].from in s.fs && s.movers[i].to !in s.fs
    requires errno == 22 || errno == 38 || errno == 95
    ensures var now, later := [Call(i, 0, ino)], [Call(i, errno, ino)] + Successes(i, ino, 5);
      && RunOk(s, now) && Moved(s, Exec(s, now), i)
      && RunOk(s, later) && Moved(s, Exec(s, later), i)
  {
    assert [Call(i, 0, ino)][1..] == [];
    var m, es := s.movers[i], [Call(i, errno, ino)] + Successes(i, ino, 5);
    var dir := s.fs[m.from].isDir;
    var t := s.(movers := s.movers[i := m.(pc := StatSource)]);
    assert es[1..] == Successes(i, ino, 5) && Step(s, es[0]) == t;
    OnTheWay(t, i, ino);
    assert t.movers[i := m] == s.movers;
  }

  function Successes(i: nat, ino: nat, n: nat): (es: seq<Event>)
    ensures |es| == n
  {
    seq(n, _ => Call(i, 0, ino))
  }

  /** The source is at the destination, and nothing else is different. */
  ghost predicate Moved(s: State, t: State, i: nat)
    requires i < |s.movers| && s.movers[i].from in s.fs
  {
    && t.movers == s.movers[i := s.movers[i].(pc := Done(0))]
    && t.fs == (s.fs - {s.movers[i].from})[s.movers[i].to := s.fs[s.movers[i].from]]
  }

  lemma OneSuccess(s: State, i: nat, ino: nat, n: nat)
    requires n > 0 && i < |s.movers| && Enabled(s, Call(i, 0, ino))
    requires RunOk(Step(s, Call(i, 0, ino)), Successes(i, ino, n - 1))
    ensures RunOk(s, Successes(i, ino, n))
    ensures Exec(s, Successes(i, ino, n)) == Exec(Step(s, Call(i, 0, ino)), Successes(i, ino, n - 1))
  {
    hide Step, Enabled;
    var es := Successes(i, ino, n);
    assert es[0] == Call(i, 0, ino) && es[1..] == Successes(i, ino, n - 1);
  }

  lemma LastStep(s: State, i: nat, ino: nat, t: State)
    requires i < |s.movers| && s.movers[i].pc.Rename?
    requires var m := s.movers[i];
      && m.from in s.fs && m.to in s.fs && s.fs[m.to].isDir == s.fs[m.from].isDir && s.fs[m.to].ino != s.fs[m.from].ino
      && t.movers == s.movers[i := m.(pc := Done(0))] && t.next == s.next + 1
      && t.fs == (s.fs - {m.from})[m.to := s.fs[m.from]]
    ensures Enabled(s, Call(i, 0, ino)) && Step(s, Call(i, 0, ino)) == t
  {
  }

  lemma OnTheWay(s: State, i: nat, ino: nat)
    requires i < |s.movers| && s.movers[i].pc == StatSource && !Live(s.fs, ino)
    requires s.movers[i].from in s.fs && s.movers[i].to !in s.fs
    ensures RunOk(s, Successes(i, ino, 5)) && Moved(s, Exec(s, Successes(i, ino, 5)), i)
  {
    var m, e := s.movers[i], Call(i, 0, ino);
    var dir := s.fs[m.from].isDir;
    var fs := s.fs[m.to := Object(ino, dir, Reservation(i), s.next + 1)];
    var a := State(s.fs, s.movers[i := m.(pc := Reserve(dir))], s.next + 1);
    var b := State(fs, s.movers[i := m.(pc := StatReservation(dir, ino))], s.next + 2);
    var c := State(fs, s.movers[i := m.(pc := Compare(dir, ino))], s.next + 3);
    var d := State(fs, s.movers[i := m.(pc := TrashMoves.Rename(dir, ino))], s.next + 4);
    var f := State((s.fs - {m.from})[m.to := s.fs[m.from]], s.movers[i := m.(pc := Done(0))], s.next + 5);
    assert Step(s, e) == a && Step(a, e) == b && Step(b, e) == c && Step(c, e) == d;
    LastStep(d, i, ino, f);
    assert RunOk(f, Successes(i, ino, 0)) && Exec(f, Successes(i, ino, 0)) == f;
    hide Step, RunOk, Exec;
    OneSuccess(d, i, ino, 1);
    OneSuccess(c, i, ino, 2);
    OneSuccess(b, i, ino, 3);
    OneSuccess(a, i, ino, 4);
    OneSuccess(s, i, ino, 5);
  }
}
