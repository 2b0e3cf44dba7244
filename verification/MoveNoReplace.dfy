/** move_no_replace as it is written: one system call after another, with
    everything that other movers and outsiders do in between. Every call is a
    step of TrashMoves.dfy, so its theorems speak about this code. */
module MoveNoReplace {
  import opened TrashMoves
  import MoveOutcomes

  /** The system, seen from mover `me`. */
  class System {
    const me: nat
    var s: State
    ghost const srcs: Sources
    ghost const start: State
    ghost var events: seq<Event>
    ghost var found: Sources                   // the sources by now

    ghost predicate Valid()
      reads this
      ensures Valid() ==> me < |s.movers|
    {
      && Init(start, srcs) && me < |srcs|
      && RunOk(start, events) && s == Exec(start, events)
      && |s.movers| == |srcs| && found == Appeared(start, srcs, events)
    }

    function Pc(): Pc
      reads this
      requires me < |s.movers|
    {
      s.movers[me].pc
    }

    constructor (me: nat, s: State, ghost srcs: Sources)
      requires Init(s, srcs) && me < |srcs|
      ensures Valid() && this.me == me && this.srcs == srcs && this.start == s == this.s
    {
      this.me, this.s, this.srcs, this.start, this.events, this.found := me, s, srcs, s, [], srcs;
    }

    /** Objects of outsiders at names that are no sources are where they were, and
        sources found stay found. */
    twostate predicate Spares()
      reads this
    {
      && |s.movers| == |old(s.movers)| && |found| == |old(found)|
      && (forall i :: 0 <= i < |found| && old(found)[i].Some? ==> found[i] == old(found)[i])
      && (forall i :: 0 <= i < |s.movers| ==>
            s.movers[i].from == old(s.movers[i].from) && s.movers[i].to == old(s.movers[i].to))
      && forall n :: n in old(s.fs) && old(s.fs)[n].owner == Outsider && !IsSource(s.movers, n) ==>
        n in s.fs && s.fs[n] == old(s.fs)[n]
    }

    /** One event of the run. */
    method Happen(e: Event)
      requires Valid() && Enabled(s, e)
      modifies this`s, this`events, this`found
      ensures Valid() && Spares() && s == Step(old(s), e) && events == old(events) + [e]
    {
      ExecAppend(start, events, e);
      InitInv(start, srcs);
      RunInv(start, srcs, events);
      AppearedAppend(start, srcs, events, e);
      StepSpares(s, found, e);
      events, found := events + [e], Appear(s, found, e);
      s := Step(s, e);
    }

    /** Whatever the others do meanwhile: any events but calls of this mover. */
    method Others()
      requires Valid()
      modifies this`s, this`events, this`found
      ensures Valid() && Spares() && Pc() == old(Pc())
    {
      hide Valid;
      var more: nat := *;
      while more > 0
        invariant Valid() && Spares() && Pc() == old(Pc())
      {
        var e: Event := *;
        if Enabled(s, e) && !(e.Call? && e.mover == me) {
          Other(e);
        }
        more := more - 1;
      }
    }

    method Other(e: Event)
      requires Valid() && Enabled(s, e) && !(e.Call? && e.mover == me)
      modifies this`s, this`events, this`found
      ensures Valid() && Spares() && Pc() == old(Pc())
    {
      Happen(e);
    }

    /** The mover's next call. Its error, 0 for success, and the values it
        returns are the system's choice. */
    method SystemCall() returns (errno: nat, isDir: bool, ino: nat)
      requires Valid() && !Pc().Done?
      modifies this`s, this`events, this`found
      ensures Valid() && Spares()
      ensures errno == 0 ==> Pc() == Next(old(Pc()), isDir, ino)
      ensures errno != 0 ==> Pc() == AfterFailure(Mover("", "", old(Pc()), false), errno).pc
    {
      Others();
      var choice: nat, newIno: nat := *, *;
      var m := s.movers[me];
      errno := if choice == 0 && !CanSucceed(s.fs, m, newIno) then EINVAL else choice;
      isDir, ino := m.from in s.fs && s.fs[m.from].isDir, Inode(s.fs, m, newIno);
      Happen(Call(me, errno, newIno));
    }

    /** move_no_replace(from, to) */
    method MoveNoReplace() returns (error: nat)
      requires Valid() && Pc() == RenameExclusive
      modifies this`s, this`events, this`found
      ensures Valid() && Pc() == Done(error)
      ensures var m, src := s.movers[me], found[me];
        && (error == 0 ==> src.Some? && m.to in s.fs && s.fs[m.to] == src.value && m.to !in start.fs)
        && (error != 0 ==>
              && (m.from in s.fs <==> src.Some?) && (src.Some? ==> s.fs[m.from] == src.value)
              && (Holds(s.fs, m, me) <==> m.fault))
      ensures var l := MoveOutcomes.Errnos(events, me);
        && (error == 0 <==>
              l == [0] ||
              (|l| == 6 && (l[0] == 22 || l[0] == 38 || l[0] == 95)
               && l[1] == 0 && l[2] == 0 && l[3] == 0 && l[4] == 0 && l[5] == 0))
        && (error != 0 ==> MoveOutcomes.FailsWith(l, error))
        && l != [] && (l[0] != 0 && l[0] != 22 && l[0] != 38 && l[0] != 95 ==> l == [error])
    {
      error := Move();
      NoClobber(start, srcs, events);
      MoveOutcomes.EndsAsItsCalls(start, srcs, events, me);
    }

    method Move() returns (error: nat)
      requires Valid() && Pc() == RenameExclusive
      modifies this`s, this`events, this`found
      ensures Valid() && Pc() == Done(error)
    {
      hide Valid;
      var errno, dir, anyDir, anyIno;
      error, anyDir, anyIno := SystemCall();   // rename_exclusive(from, to)
      if !Unsupported(error) {
        return;
      }
      errno, dir, anyIno := SystemCall();      // lstat(from, &source)
      if errno != 0 {
        return errno;
      }
      error := MoveReserving(dir);
    }

    /** The way without rename flags: reserve the name, then replace only the
        mover's own reservation. */
    method MoveReserving(dir: bool) returns (error: nat)
      requires Valid() && Pc() == Reserve(dir)
      modifies this`s, this`events, this`found
      ensures Valid() && Pc() == Done(error)
    {
      hide Valid;
      var errno, fd, reserved, current, anyDir, anyIno;
      errno, anyDir, fd := SystemCall();        // mkdir(to) or open(to, O_CREAT | O_EXCL)
      if errno != 0 {
        return errno;
      }
      errno, anyDir, reserved := SystemCall();  // lstat(to, &reserved) or fstat(fd, &reserved)
      if errno != 0 {
        return errno;
      }
      errno, anyDir, current := SystemCall();   // lstat(to, &current)
      if errno != 0 {
        error := errno;
      } else if current != reserved {
        error := EEXIST;
      } else {
        error, anyDir, anyIno := SystemCall();  // rename(from, to)
      }
      if error != 0 {
        CleanUp(dir, reserved, error);
      }
    }

    /** Takes the reservation away, but never a name another has replaced: it is
        gone, or a call on it failed, the source is in place, and nothing else
        was displaced. */
    method CleanUp(dir: bool, reserved: nat, error: nat)
      requires Valid() && Pc() == Recheck(dir, reserved, error) && error != 0
      modifies this`s, this`events, this`found
      ensures Valid() && Spares() && Pc() == Done(error)
      ensures var m, src := s.movers[me], found[me];
        && (Holds(s.fs, m, me) <==> m.fault)
        && src.Some? && m.from in s.fs && s.fs[m.from] == src.value
    {
      InitInv(start, srcs);
      RunInv(start, srcs, events);
      assert MoverOk(s.fs, s.movers[me], me, found[me]);
      CleanUpCalls(dir, reserved, error);
      InitInv(start, srcs);
      RunInv(start, srcs, events);
      assert MoverOk(s.fs, s.movers[me], me, found[me]);
    }

    method CleanUpCalls(dir: bool, reserved: nat, error: nat)
      requires Valid() && Pc() == Recheck(dir, reserved, error)
      modifies this`s, this`events, this`found
      ensures Valid() && Spares() && Pc() == Done(error)
    {
      hide Valid;
      var errno, current, anyDir, anyIno;
      errno, anyDir, current := SystemCall();   // lstat(to, &current)
      if errno == 0 && current == reserved {
        errno, anyDir, anyIno := SystemCall();  // rmdir(to) or unlink(to)
      }
    }
  }

  lemma {:induction false} AppearedAppend(s: State, srcs: Sources, es: seq<Event>, e: Event)
    requires RunOk(s, es) && Enabled(Exec(s, es), e) && |srcs| == |s.movers|
    ensures |Exec(s, es).movers| == |s.movers| && RunOk(s, es + [e])
    ensures Appeared(s, srcs, es + [e]) == Appear(Exec(s, es), Appeared(s, srcs, es), e)
    decreases |es|
  {
    ExecAppend(s, es, e);
    if es == [] {
      assert es + [e] == [e] && [e][1..] == [];
    } else {
      assert (es + [e])[1..] == es[1..] + [e];
      AppearedAppend(Step(s, es[0]), Appear(s, srcs, es[0]), es[1..], e);
    }
  }

  lemma StepSpares(s: State, srcs: Sources, e: Event)
    requires Inv(s, srcs) && Enabled(s, e)
    ensures var t := Step(s, e);
      && |t.movers| == |s.movers|
      && (forall i :: 0 <= i < |s.movers| ==> t.movers[i].from == s.movers[i].from && t.movers[i].to == s.movers[i].to)
      && forall n :: n in s.fs && s.fs[n].owner == Outsider && !IsSource(s.movers, n) ==>
        n in t.fs && t.fs[n] == s.fs[n]
  {
    hide Inv;
    forall n | n in s.fs && s.fs[n].owner == Outsider && !IsSource(s.movers, n)
      ensures n in Step(s, e).fs && Step(s, e).fs[n] == s.fs[n]
    {
      StepKeeps(s, srcs, e, n);
    }
  }

  lemma {:induction false} ExecAppend(s: State, es: seq<Event>, e: Event)
    requires RunOk(s, es) && Enabled(Exec(s, es), e)
    ensures RunOk(s, es + [e]) && Exec(s, es + [e]) == Step(Exec(s, es), e)
    decreases |es|
  {
    if es == [] {
      assert es + [e] == [e] && [e][1..] == [];
    } else {
      assert (es + [e])[1..] == es[1..] + [e];
      ExecAppend(Step(s, es[0]), es[1..], e);
    }
  }
}
