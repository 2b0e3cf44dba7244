/** Moves that refuse an existing destination (trash.c), as interleaved system
    calls of any number of movers and of outsiders who create names. */
module TrashMoves {
  import opened Wrappers

  const EEXIST: nat := 17
  const EINVAL: nat := 22
  const ENOSYS: nat := 38
  const EOPNOTSUPP: nat := 95

  type Name = string

  /** Who made an object; only used to state properties. */
  datatype Owner = Outsider | Reservation(mover: nat)

  /** An entry of the file system. lstat tells its inode, which hard links share, and
      whether it is a directory; `entry` tells it from every other entry ever made. */
  datatype Object = Object(ino: nat, isDir: bool, owner: Owner, entry: nat)

  /** The next system call of move_no_replace, and its local variables. */
  datatype Pc =
    | RenameExclusive                              // renameat2(from, to, RENAME_NOREPLACE)
    | StatSource                                   // lstat(from, &source)
    | Reserve(dir: bool)                           // mkdir(to) or open(to, O_CREAT | O_EXCL)
    | StatReservation(dir: bool, fd: nat)          // lstat(to, &reserved) or fstat(fd, &reserved)
    | Compare(dir: bool, reserved: nat)            // lstat(to, &current)
    | Rename(dir: bool, reserved: nat)             // rename(from, to)
    | Recheck(dir: bool, reserved: nat, error: nat) // lstat(to, &current) after an error
    | Remove(dir: bool, error: nat)                // rmdir(to) or unlink(to)
    | Done(error: nat)

  /** `fault` records that a call on the mover's own reservation failed: the
      stat right after making it, or the stat or removal that cleans up. */
  datatype Mover = Mover(from: Name, to: Name, pc: Pc, fault: bool)

  /** `next` is the number of the next entry. */
  datatype State = State(fs: map<Name, Object>, movers: seq<Mover>, next: nat)

  /** A mover's next call, failing with `errno` unless that is 0, and using
      inode `ino` if it creates; or an outsider's creation, of a new file or of a
      hard link. */
  datatype Event =
    | Call(mover: nat, errno: nat, ino: nat)
    | Create(name: Name, ino: nat, isDir: bool)
    | Link(name: Name, file: Name)

  predicate Live(fs: map<Name, Object>, ino: nat) {
    exists n :: n in fs && fs[n].ino == ino
  }

  /** rename(from, to), replacing what is there; between two hard links of a file it
      does nothing. */
  function Renamed(fs: map<Name, Object>, from: Name, to: Name): map<Name, Object>
    requires from in fs
  {
    if to in fs && fs[to].ino == fs[from].ino then fs else (fs - {from})[to := fs[from]]
  }

  /** When the call can succeed. Failure is always possible. */
  predicate CanSucceed(fs: map<Name, Object>, m: Mover, ino: nat) {
    match m.pc
    case RenameExclusive => m.from in fs && m.to !in fs
    case StatSource => m.from in fs
    case Reserve(_) => m.to !in fs && !Live(fs, ino)
    case StatReservation(dir, _) => dir ==> m.to in fs
    case Compare(_, _) => m.to in fs
    case Rename(_, _) => m.from in fs && (m.to in fs ==> fs[m.to].isDir == fs[m.from].isDir)
    case Recheck(_, _, _) => m.to in fs
    case Remove(_, _) => m.to in fs
    case Done(_) => false
  }

  predicate Enabled(s: State, e: Event) {
    match e
    case Call(i, errno, ino) =>
      i < |s.movers| && !s.movers[i].pc.Done? && (errno == 0 ==> CanSucceed(s.fs, s.movers[i], ino))
    case Create(name, ino, _) => name !in s.fs && !Live(s.fs, ino)
    case Link(name, file) => name !in s.fs && file in s.fs && !s.fs[file].isDir
  }

  predicate Unsupported(errno: nat) {
    errno == EINVAL || errno == ENOSYS || errno == EOPNOTSUPP
  }

  /** Where a failed call leads. */
  function AfterFailure(m: Mover, errno: nat): Mover
    requires !m.pc.Done?
  {
    match m.pc
    case RenameExclusive => m.(pc := if Unsupported(errno) then StatSource else Done(errno))
    case StatSource => m.(pc := Done(errno))
    case Reserve(_) => m.(pc := Done(errno))
    case StatReservation(_, _) => m.(pc := Done(errno), fault := true)
    case Compare(dir, reserved) => m.(pc := Recheck(dir, reserved, errno))
    case Rename(dir, reserved) => m.(pc := Recheck(dir, reserved, errno))
    case Recheck(_, _, error) => m.(pc := Done(error), fault := true)
    case Remove(_, error) => m.(pc := Done(error), fault := true)
  }

  /** Where a successful call leads, given what it told the mover: whether the
      object it looked at is a directory, and its inode. */
  function Next(pc: Pc, isDir: bool, ino: nat): Pc
    requires !pc.Done?
  {
    match pc
    case RenameExclusive => Done(0)
    case StatSource => Reserve(isDir)
    case Reserve(dir) => StatReservation(dir, ino)
    case StatReservation(dir, _) => Compare(dir, ino)
    case Compare(dir, reserved) =>
      if ino == reserved then Rename(dir, reserved) else Recheck(dir, reserved, EEXIST)
    case Rename(_, _) => Done(0)
    case Recheck(dir, reserved, error) => if ino == reserved then Remove(dir, error) else Done(error)
    case Remove(_, error) => Done(error)
  }

  /** The inode a successful call tells: that of the object it creates, of the
      open file, or of what is at the name now. */
  function Inode(fs: map<Name, Object>, m: Mover, ino: nat): nat {
    match m.pc
    case StatReservation(false, fd) => fd
    case StatReservation(true, _) => if m.to in fs then fs[m.to].ino else 0
    case Compare(_, _) => if m.to in fs then fs[m.to].ino else 0
    case Recheck(_, _, _) => if m.to in fs then fs[m.to].ino else 0
    case _ => ino
  }

  function AfterSuccess(fs: map<Name, Object>, m: Mover, ino: nat): Pc
    requires !m.pc.Done?
  {
    Next(m.pc, m.from in fs && fs[m.from].isDir, Inode(fs, m, ino))
  }

  /** What a successful call does to the file system. */
  function Effect(fs: map<Name, Object>, m: Mover, i: nat, ino: nat, entry: nat): map<Name, Object>
    requires m.pc.RenameExclusive? || m.pc.Rename? ==> m.from in fs
  {
    match m.pc
    case RenameExclusive => Renamed(fs, m.from, m.to)
    case Reserve(dir) => fs[m.to := Object(ino, dir, Reservation(i), entry)]
    case Rename(_, _) => Renamed(fs, m.from, m.to)
    case Remove(_, _) => fs - {m.to}
    case _ => fs
  }

  /** What an outsider makes. */
  function Made(s: State, e: Event): Object
    requires Enabled(s, e) && !e.Call?
  {
    match e
    case Create(_, ino, isDir) => Object(ino, isDir, Outsider, s.next)
    case Link(_, file) => Object(s.fs[file].ino, false, Outsider, s.next)
  }

  function Step(s: State, e: Event): State
    requires Enabled(s, e)
  {
    match e
    case Call(i, errno, ino) =>
      var m := s.movers[i];
      if errno != 0 then s.(movers := s.movers[i := AfterFailure(m, errno)])
      else State(Effect(s.fs, m, i, ino, s.next), s.movers[i := m.(pc := AfterSuccess(s.fs, m, ino))], s.next + 1)
    case Create(name, _, _) => State(s.fs[name := Made(s, e)], s.movers, s.next + 1)
    case Link(name, _) => State(s.fs[name := Made(s, e)], s.movers, s.next + 1)
  }

  // ----- the invariant

  /** No entry has two names, and all are numbered. */
  ghost predicate Distinct(fs: map<Name, Object>, next: nat) {
    && (forall n, m :: n in fs && m in fs && n != m ==> fs[n].entry != fs[m].entry)
    && (forall n :: n in fs ==> fs[n].entry < next)
  }

  /** Sources are distinct and never destinations. */
  ghost predicate Apart(movers: seq<Mover>) {
    && (forall i, j :: 0 <= i < |movers| && 0 <= j < |movers| ==> movers[i].from != movers[j].to)
    && (forall i, j :: 0 <= i < j < |movers| ==> movers[i].from != movers[j].from)
  }

  /** The mover's reservation is at its destination. */
  ghost predicate Holds(fs: map<Name, Object>, m: Mover, i: nat) {
    m.to in fs && fs[m.to].owner == Reservation(i)
  }

  /** Between reserving and finishing. */
  predicate Reserved(pc: Pc) {
    pc.StatReservation? || pc.Compare? || pc.Rename? || pc.Recheck? || pc.Remove?
  }

  /** What the mover's own variables say about its reservation and source. */
  ghost predicate Knows(fs: map<Name, Object>, m: Mover, src: Object)
    requires m.to in fs
  {
    match m.pc
    case StatReservation(dir, fd) => fd == fs[m.to].ino && dir == fs[m.to].isDir == src.isDir
    case Compare(dir, reserved) => reserved == fs[m.to].ino && dir == fs[m.to].isDir == src.isDir
    case Rename(dir, reserved) => reserved == fs[m.to].ino && dir == fs[m.to].isDir == src.isDir
    case Recheck(_, reserved, error) => reserved == fs[m.to].ino && error != 0
    case Remove(_, error) => error != 0
    case _ => true
  }

  /** Mover `i` with source object `src`, None as long as there is none. */
  ghost predicate MoverOk(fs: map<Name, Object>, m: Mover, i: nat, src: Option<Object>) {
    if src.None? then
      && m.from !in fs && !m.fault && !Holds(fs, m, i)
      && (m.pc.RenameExclusive? || m.pc.StatSource? || (m.pc.Done? && m.pc.error != 0))
    else if m.pc == Done(0) then
      && m.to in fs && fs[m.to] == src.value && !m.fault
      && (m.from in fs ==> fs[m.from] != src.value)
    else
      && m.from in fs && fs[m.from] == src.value
      && (m.pc.Reserve? ==> m.pc.dir == src.value.isDir)
      && (m.fault ==> m.pc.Done?)
      && (Holds(fs, m, i) <==> Reserved(m.pc) || m.fault)
      && (Reserved(m.pc) ==> Knows(fs, m, src.value) && fs[m.to].ino != src.value.ino)
  }

  type Sources = seq<Option<Object>>

  ghost predicate Inv(s: State, srcs: Sources) {
    && |srcs| == |s.movers|
    && Distinct(s.fs, s.next) && Apart(s.movers)
    && (forall i :: 0 <= i < |srcs| && srcs[i].Some? ==> srcs[i].value.owner == Outsider)
    && (forall i :: 0 <= i < |srcs| ==> MoverOk(s.fs, s.movers[i], i, srcs[i]))
    && (forall i, j :: 0 <= i < j < |srcs| && srcs[i].Some? ==> srcs[i] != srcs[j])
    && (forall n :: n in s.fs && s.fs[n].owner.Reservation? ==>
          var i := s.fs[n].owner.mover; i < |s.movers| && n == s.movers[i].to)
  }

  /** Nobody has started, and no name is anyone's reservation. */
  ghost predicate Init(s: State, srcs: Sources) {
    && |srcs| == |s.movers|
    && Distinct(s.fs, s.next) && Apart(s.movers)
    && (forall n :: n in s.fs ==> s.fs[n].owner == Outsider)
    && (forall i :: 0 <= i < |srcs| ==>
          var m := s.movers[i];
          && m.pc == RenameExclusive && !m.fault
          && srcs[i] == if m.from in s.fs then Some(s.fs[m.from]) else None)
  }

  /** A mover's source is what is at its first name, from the start or from when
      an outsider creates it. */
  function Appear(s: State, srcs: Sources, e: Event): (r: Sources)
    requires |srcs| == |s.movers| && Enabled(s, e)
    ensures |r| == |srcs|
    ensures forall i :: 0 <= i < |srcs| && srcs[i].Some? ==> r[i] == srcs[i]
  {
    if e.Call? then srcs
    else
      seq(|srcs|, i requires 0 <= i < |srcs| =>
        if srcs[i].None? && s.movers[i].from == e.name then Some(Made(s, e)) else srcs[i])
  }

  lemma InitInv(s: State, srcs: Sources)
    requires Init(s, srcs)
    ensures Inv(s, srcs)
  {
    forall i, j | 0 <= i < j < |srcs| && srcs[i].Some?
      ensures srcs[i] != srcs[j]
    {
      assert s.movers[i].from != s.movers[j].from;
    }
  }

  /** An event leaves every object where it is, except that a mover moves its
      own source to its destination and takes away its own reservation. */
  ghost predicate Displaces(s: State, e: Event, n: Name)
    requires n in s.fs
  {
    e.Call? && e.mover < |s.movers| &&
    (n == s.movers[e.mover].from || s.fs[n].owner == Reservation(e.mover))
  }

  // ----- each kind of event keeps the invariant

  lemma CreateInv(s: State, srcs: Sources, e: Event)
    requires Inv(s, srcs) && Enabled(s, e) && !e.Call?
    ensures Inv(Step(s, e), Appear(s, srcs, e))
  {
    var t, after := Step(s, e), Appear(s, srcs, e);
    forall i | 0 <= i < |srcs|
      ensures MoverOk(t.fs, t.movers[i], i, after[i])
    {
      assert MoverOk(s.fs, s.movers[i], i, srcs[i]);
    }
    forall i, j | 0 <= i < j < |srcs| && after[i].Some?
      ensures after[i] != after[j]
    {
      SourceIsNumbered(s, srcs, i);
      SourceIsNumbered(s, srcs, j);
      assert s.movers[i].from != s.movers[j].from;
    }
  }

  lemma SourceIsNumbered(s: State, srcs: Sources, i: nat)
    requires Inv(s, srcs) && i < |srcs|
    ensures srcs[i].Some? ==> srcs[i].value.entry < s.next
  {
    assert MoverOk(s.fs, s.movers[i], i, srcs[i]);
  }

  lemma FailureInv(s: State, srcs: Sources, i: nat, errno: nat)
    requires Inv(s, srcs) && i < |s.movers| && !s.movers[i].pc.Done? && errno != 0
    ensures Inv(s.(movers := s.movers[i := AfterFailure(s.movers[i], errno)]), srcs)
  {
    var after := AfterFailure(s.movers[i], errno);
    var t := s.(movers := s.movers[i := after]);
    FailureKeeps(s.fs, s.movers[i], i, srcs[i], errno);
    hide MoverOk;
    forall j | 0 <= j < |srcs|
      ensures MoverOk(t.fs, t.movers[j], j, srcs[j])
    {
      assert j != i ==> MoverOk(s.fs, s.movers[j], j, srcs[j]);
    }
  }

  lemma FailureKeeps(fs: map<Name, Object>, m: Mover, i: nat, src: Option<Object>, errno: nat)
    requires MoverOk(fs, m, i, src) && !m.pc.Done? && errno != 0
    ensures MoverOk(fs, AfterFailure(m, errno), i, src)
    ensures AfterFailure(m, errno).from == m.from && AfterFailure(m, errno).to == m.to
  {
  }

  /** A call that changes no file. */
  lemma LookInv(s: State, srcs: Sources, e: Event)
    requires Inv(s, srcs) && Enabled(s, e) && e.Call? && e.errno == 0
    requires var pc := s.movers[e.mover].pc; pc.StatSource? || pc.StatReservation? || pc.Compare? || pc.Recheck?
    ensures Inv(Step(s, e), srcs)
  {
    var t, i := Step(s, e), e.mover;
    LookKeeps(s.fs, s.movers[i], i, srcs[i], e.ino);
    hide MoverOk;
    forall j | 0 <= j < |srcs|
      ensures MoverOk(t.fs, t.movers[j], j, srcs[j])
    {
      assert j != i ==> MoverOk(s.fs, s.movers[j], j, srcs[j]);
    }
  }

  lemma LookKeeps(fs: map<Name, Object>, m: Mover, i: nat, src: Option<Object>, ino: nat)
    requires MoverOk(fs, m, i, src) && CanSucceed(fs, m, ino)
    requires m.pc.StatSource? || m.pc.StatReservation? || m.pc.Compare? || m.pc.Recheck?
    ensures MoverOk(fs, m.(pc := AfterSuccess(fs, m, ino)), i, src)
  {
  }

  lemma ReserveInv(s: State, srcs: Sources, e: Event)
    requires Inv(s, srcs) && Enabled(s, e) && e.Call? && e.errno == 0
    requires s.movers[e.mover].pc.Reserve?
    ensures Inv(Step(s, e), srcs)
  {
    var t, i := Step(s, e), e.mover;
    forall j | 0 <= j < |srcs|
      ensures MoverOk(t.fs, t.movers[j], j, srcs[j])
    {
      assert MoverOk(s.fs, s.movers[j], j, srcs[j]);
      assert t.movers[j].to == s.movers[j].to && t.movers[j].from == s.movers[j].from;
      assert s.movers[j].from != s.movers[i].to;
    }
  }

  lemma RemoveInv(s: State, srcs: Sources, e: Event)
    requires Inv(s, srcs) && Enabled(s, e) && e.Call? && e.errno == 0
    requires s.movers[e.mover].pc.Remove?
    ensures Inv(Step(s, e), srcs)
  {
    var t, i := Step(s, e), e.mover;
    var m := s.movers[i];
    RemoveOwn(s.fs, m, i, srcs[i], e.ino);
    hide MoverOk;
    forall j | 0 <= j < |srcs|
      ensures MoverOk(t.fs, t.movers[j], j, srcs[j])
    {
      assert MoverOk(s.fs, s.movers[j], j, srcs[j]) && s.movers[j].from != m.to;
      if j != i {
        RemoveOther(s.fs, m.to, s.movers[j], j, srcs[j]);
      }
    }
  }

  lemma RemoveOwn(fs: map<Name, Object>, m: Mover, i: nat, src: Option<Object>, ino: nat)
    requires MoverOk(fs, m, i, src) && m.pc.Remove? && m.from != m.to
    ensures m.to in fs && fs[m.to].owner == Reservation(i)
    ensures MoverOk(fs - {m.to}, m.(pc := AfterSuccess(fs, m, ino)), i, src)
  {
  }

  lemma RemoveOther(fs: map<Name, Object>, to: Name, m: Mover, j: nat, src: Option<Object>)
    requires MoverOk(fs, m, j, src) && m.from != to && (src.Some? ==> src.value.owner == Outsider)
    requires to in fs && fs[to].owner.Reservation? && fs[to].owner.mover != j
    ensures MoverOk(fs - {to}, m, j, src)
  {
  }

  /** Both renames: the destination is free, or the mover's own reservation. */
  lemma MoveInv(s: State, srcs: Sources, e: Event)
    requires Inv(s, srcs) && Enabled(s, e) && e.Call? && e.errno == 0
    requires s.movers[e.mover].pc.RenameExclusive? || s.movers[e.mover].pc.Rename?
    ensures Inv(Step(s, e), srcs)
  {
    var t, i := Step(s, e), e.mover;
    var m := s.movers[i];
    MoveOwn(s.fs, m, i, srcs[i], e.ino);
    hide MoverOk;
    forall j | 0 <= j < |srcs|
      ensures MoverOk(t.fs, t.movers[j], j, srcs[j])
    {
      assert MoverOk(s.fs, s.movers[j], j, srcs[j]);
      assert s.movers[j].from != m.to && s.movers[j].to != m.from && m.from != m.to;
      if j != i {
        assert s.movers[j].from != m.from;
        MoveOther(s.fs, m, i, s.movers[j], j, srcs[j]);
      }
    }
    RenamedDistinct(s.fs, m.from, m.to, s.next);
  }

  lemma MoveOwn(fs: map<Name, Object>, m: Mover, i: nat, src: Option<Object>, ino: nat)
    requires MoverOk(fs, m, i, src) && (m.pc.RenameExclusive? || m.pc.Rename?) && CanSucceed(fs, m, ino)
    requires m.from != m.to
    ensures src == Some(fs[m.from])
    ensures m.to in fs ==> fs[m.to].owner == Reservation(i) && fs[m.to].ino != fs[m.from].ino
    ensures MoverOk(Renamed(fs, m.from, m.to), m.(pc := AfterSuccess(fs, m, ino)), i, src)
  {
  }

  lemma MoveOther(fs: map<Name, Object>, a: Mover, i: nat, m: Mover, j: nat, src: Option<Object>)
    requires MoverOk(fs, m, j, src) && i != j && (src.Some? ==> src.value.owner == Outsider)
    requires a.from in fs && fs[a.from].owner == Outsider
    requires a.to in fs ==> fs[a.to].owner == Reservation(i) && fs[a.to].ino != fs[a.from].ino
    requires m.from != a.to && m.from != a.from && m.to != a.from && a.from != a.to
    ensures MoverOk(Renamed(fs, a.from, a.to), m, j, src)
  {
  }

  lemma RenamedDistinct(fs: map<Name, Object>, from: Name, to: Name, next: nat)
    requires Distinct(fs, next) && from in fs
    ensures Distinct(Renamed(fs, from, to), next + 1)
  {
  }

  lemma StepInv(s: State, srcs: Sources, e: Event)
    requires Inv(s, srcs) && Enabled(s, e)
    ensures Inv(Step(s, e), Appear(s, srcs, e))
  {
    hide Inv;
    match e
    case Create(_, _, _) => CreateInv(s, srcs, e);
    case Link(_, _) => CreateInv(s, srcs, e);
    case Call(i, errno, _) =>
      if errno != 0 {
        FailureInv(s, srcs, i, errno);
      } else {
        match s.movers[i].pc
        case Reserve(_) => ReserveInv(s, srcs, e);
        case Remove(_, _) => RemoveInv(s, srcs, e);
        case RenameExclusive => MoveInv(s, srcs, e);
        case Rename(_, _) => MoveInv(s, srcs, e);
        case _ => LookInv(s, srcs, e);
      }
  }

  /** No event displaces an object, except that a mover moves its own source
      and takes away its own reservation. */
  lemma StepKeeps(s: State, srcs: Sources, e: Event, n: Name)
    requires Inv(s, srcs) && Enabled(s, e) && n in s.fs && !Displaces(s, e, n)
    ensures n in Step(s, e).fs && Step(s, e).fs[n] == s.fs[n]
  {
    if e.Call? {
      assert MoverOk(s.fs, s.movers[e.mover], e.mover, srcs[e.mover]);
    }
  }

  // ----- runs

  ghost predicate RunOk(s: State, es: seq<Event>)
    decreases |es|
  {
    es == [] || (Enabled(s, es[0]) && RunOk(Step(s, es[0]), es[1..]))
  }

  ghost function Exec(s: State, es: seq<Event>): State
    requires RunOk(s, es)
    decreases |es|
  {
    if es == [] then s else Exec(Step(s, es[0]), es[1..])
  }

  /** The sources after a run. */
  ghost function Appeared(s: State, srcs: Sources, es: seq<Event>): (r: Sources)
    requires RunOk(s, es) && |srcs| == |s.movers|
    ensures |r| == |srcs|
    ensures forall i :: 0 <= i < |srcs| && srcs[i].Some? ==> r[i] == srcs[i]
    decreases |es|
  {
    if es == [] then srcs
    else
      assert |Step(s, es[0]).movers| == |s.movers|;
      Appeared(Step(s, es[0]), Appear(s, srcs, es[0]), es[1..])
  }

  lemma {:induction false} RunInv(s: State, srcs: Sources, es: seq<Event>)
    requires Inv(s, srcs) && RunOk(s, es)
    ensures |srcs| == |s.movers| && Inv(Exec(s, es), Appeared(s, srcs, es))
    decreases |es|
  {
    if es != [] {
      StepInv(s, srcs, es[0]);
      RunInv(Step(s, es[0]), Appear(s, srcs, es[0]), es[1..]);
    }
  }

  ghost predicate IsSource(movers: seq<Mover>, n: Name) {
    exists i :: 0 <= i < |movers| && movers[i].from == n
  }

  /** From any state on: an object at a name that is nobody's source, once
      there, is never displaced by a move, whatever the interleaving. */
  lemma {:induction false} NothingDisplaced(s: State, srcs: Sources, es: seq<Event>, n: Name)
    requires Inv(s, srcs) && RunOk(s, es)
    requires n in s.fs && s.fs[n].owner == Outsider && !IsSource(s.movers, n)
    ensures n in Exec(s, es).fs && Exec(s, es).fs[n] == s.fs[n]
    decreases |es|
  {
    if es != [] {
      StepInv(s, srcs, es[0]);
      StepKeeps(s, srcs, es[0], n);
      var t := Step(s, es[0]);
      assert |t.movers| == |s.movers|;
      assert forall i :: 0 <= i < |t.movers| ==> t.movers[i].from == s.movers[i].from;
      NothingDisplaced(t, Appear(s, srcs, es[0]), es[1..], n);
    }
  }

  lemma {:induction false} NamesFixed(s: State, es: seq<Event>)
    requires RunOk(s, es)
    ensures |Exec(s, es).movers| == |s.movers|
    ensures forall i :: 0 <= i < |s.movers| ==>
      Exec(s, es).movers[i].from == s.movers[i].from && Exec(s, es).movers[i].to == s.movers[i].to
    decreases |es|
  {
    if es != [] {
      NamesFixed(Step(s, es[0]), es[1..]);
    }
  }

  /** Exactly one of the mover's two names has its source object. */
  ghost predicate AtOneName(fs: map<Name, Object>, m: Mover, src: Object) {
    (m.from in fs && fs[m.from] == src) != (m.to in fs && fs[m.to] == src)
  }

  /** The guarantees of move_no_replace, after every run of any number of movers
      and outsiders. */
  lemma NoClobber(s: State, srcs: Sources, es: seq<Event>)
    requires Init(s, srcs) && RunOk(s, es)
    ensures var t, after := Exec(s, es), Appeared(s, srcs, es);
      && |t.movers| == |s.movers| == |after|
      // what stood at a name that is nobody's source still does
      && (forall n :: n in s.fs && !IsSource(s.movers, n) ==> n in t.fs && t.fs[n] == s.fs[n])
      // every source object is at one of its two names
      && (forall i :: 0 <= i < |after| && after[i].Some? ==> AtOneName(t.fs, t.movers[i], after[i].value))
      // success means moved, to a destination that was free at the start
      && (forall i :: 0 <= i < |after| && t.movers[i].pc == Done(0) ==>
            && after[i].Some? && t.movers[i].to in t.fs && t.fs[t.movers[i].to] == after[i].value
            && t.movers[i].to !in s.fs)
      // failure leaves the source, and a reservation only if a call on it failed
      && (forall i :: 0 <= i < |after| && t.movers[i].pc.Done? && t.movers[i].pc.error != 0 ==>
            && (t.movers[i].from in t.fs <==> after[i].Some?)
            && (after[i].Some? ==> t.fs[t.movers[i].from] == after[i].value)
            && (Holds(t.fs, t.movers[i], i) <==> t.movers[i].fault))
      // at most one mover gets a destination
      && (forall i, j :: 0 <= i < j < |after| && t.movers[i].pc == Done(0) && t.movers[j].pc == Done(0) ==>
            t.movers[i].to != t.movers[j].to)
  {
    var t, after := Exec(s, es), Appeared(s, srcs, es);
    InitInv(s, srcs);
    RunInv(s, srcs, es);
    NamesFixed(s, es);
    forall n | n in s.fs && !IsSource(s.movers, n)
      ensures n in t.fs && t.fs[n] == s.fs[n]
    {
      NothingDisplaced(s, srcs, es, n);
    }
    forall i | 0 <= i < |srcs|
      ensures after[i].Some? ==> AtOneName(t.fs, t.movers[i], after[i].value)
      ensures t.movers[i].pc == Done(0) ==> after[i].Some? && t.movers[i].to !in s.fs
    {
      assert MoverOk(t.fs, t.movers[i], i, after[i]);
      assert t.movers[i].from != t.movers[i].to;
      if t.movers[i].pc == Done(0) && t.movers[i].to in s.fs {
        SourceElsewhere(s, srcs, es, i);
      }
    }
    forall i, j | 0 <= i < j < |srcs| && t.movers[i].pc == Done(0) && t.movers[j].pc == Done(0)
      ensures t.movers[i].to != t.movers[j].to
    {
      assert MoverOk(t.fs, t.movers[i], i, after[i]) && MoverOk(t.fs, t.movers[j], j, after[j]);
    }
  }

  /** A destination that exists at the start holds something other than the
      source, wherever that comes from. */
  lemma SourceElsewhere(s: State, srcs: Sources, es: seq<Event>, i: nat)
    requires Init(s, srcs) && RunOk(s, es) && i < |srcs| && s.movers[i].to in s.fs
    ensures Appeared(s, srcs, es)[i] != Some(s.fs[s.movers[i].to]) && !IsSource(s.movers, s.movers[i].to)
  {
    InitInv(s, srcs);
    assert s.movers[i].from != s.movers[i].to;
    AppearsElsewhere(s, srcs, es, i, s.movers[i].to);
  }

  lemma {:induction false} AppearsElsewhere(s: State, srcs: Sources, es: seq<Event>, i: nat, n: Name)
    requires Inv(s, srcs) && RunOk(s, es) && i < |srcs|
    requires n in s.fs && srcs[i] != Some(s.fs[n]) && s.fs[n].owner == Outsider && !IsSource(s.movers, n)
    ensures Appeared(s, srcs, es)[i] != Some(s.fs[n])
    decreases |es|
  {
    if es != [] {
      var t := Step(s, es[0]);
      StepInv(s, srcs, es[0]);
      StepKeeps(s, srcs, es[0], n);
      assert |t.movers| == |s.movers|;
      assert forall i :: 0 <= i < |t.movers| ==> t.movers[i].from == s.movers[i].from;
      AppearsElsewhere(t, Appear(s, srcs, es[0]), es[1..], i, n);
    }
  }

  // ----- what is replaced and removed

  /** In any state, even where somebody has replaced the reservation against the rules:
      a mover gets to rename over its destination, or to remove what is there, exactly
      by a look at it that shows the inode of its own reservation. A look that shows
      another makes it fail, with EEXIST if it was about to rename. */
  lemma OnlyAfterALook(s: State, e: Event)
    requires Enabled(s, e) && e.Call?
    ensures var m, pc := s.movers[e.mover], Step(s, e).movers[e.mover].pc;
      && (pc.Rename? <==>
            m.pc.Compare? && e.errno == 0 && m.to in s.fs && s.fs[m.to].ino == m.pc.reserved)
      && (pc.Remove? <==>
            m.pc.Recheck? && e.errno == 0 && m.to in s.fs && s.fs[m.to].ino == m.pc.reserved)
      && (m.pc.Compare? && e.errno == 0 && s.fs[m.to].ino != m.pc.reserved ==>
            pc == Recheck(m.pc.dir, m.pc.reserved, 17))
      && (m.pc.Recheck? && (e.errno != 0 || s.fs[m.to].ino != m.pc.reserved) ==> pc == Done(m.pc.error))
      && (pc.Rename? ==> pc == Pc.Rename(m.pc.dir, m.pc.reserved))
      && (pc.Remove? ==> pc == Remove(m.pc.dir, m.pc.error))
  {
  }

  // ----- errors and progress

  /** The error a mover is about to return, or has returned. */
  function ErrorOf(pc: Pc): nat {
    match pc
    case Recheck(_, _, e) => e
    case Remove(_, e) => e
    case Done(e) => e
    case _ => 0
  }

  /** A mover only ever returns an error that one of its own calls gave. */
  lemma {:induction false} ErrorsAreOwn(s: State, srcs: Sources, es: seq<Event>, i: nat)
    requires Inv(s, srcs) && RunOk(s, es) && i < |s.movers|
    ensures |Exec(s, es).movers| == |s.movers|
    ensures var error := ErrorOf(Exec(s, es).movers[i].pc);
      error == 0 || error == ErrorOf(s.movers[i].pc)
      || exists k :: 0 <= k < |es| && es[k].Call? && es[k].mover == i && es[k].errno == error
    decreases |es|
  {
    if es != [] {
      var t := Step(s, es[0]);
      StepInv(s, srcs, es[0]);
      assert MoverOk(s.fs, s.movers[i], i, srcs[i]);
      ErrorsAreOwn(t, Appear(s, srcs, es[0]), es[1..], i);
      var error := ErrorOf(Exec(s, es).movers[i].pc);
      if k :| 0 <= k < |es[1..]| && es[1..][k].Call? && es[1..][k].mover == i && es[1..][k].errno == error {
        assert es[k + 1] == es[1..][k];
      } else if error != 0 && error != ErrorOf(s.movers[i].pc) {
        assert es[0].Call? && es[0].mover == i && es[0].errno == error;
      }
    }
  }

  /** System calls a mover may still make. */
  function CallsLeft(pc: Pc): nat {
    match pc
    case RenameExclusive => 8
    case StatSource => 7
    case Reserve(_) => 6
    case StatReservation(_, _) => 5
    case Compare(_, _) => 4
    case Rename(_, _) => 3
    case Recheck(_, _, _) => 2
    case Remove(_, _) => 1
    case Done(_) => 0
  }

  function CallsMade(es: seq<Event>, i: nat): nat {
    if es == [] then 0
    else (if es[0].Call? && es[0].mover == i then 1 else 0) + CallsMade(es[1..], i)
  }

  /** No mover can be kept busy: it finishes within eight calls of its own. */
  lemma {:induction false} Bounded(s: State, es: seq<Event>, i: nat)
    requires RunOk(s, es) && i < |s.movers|
    ensures CallsMade(es, i) <= CallsLeft(s.movers[i].pc)
    decreases |es|
  {
    if es != [] {
      Bounded(Step(s, es[0]), es[1..], i);
    }
  }
}
