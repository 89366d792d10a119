/**
 * Resumable downloads (`copy --resume`): the writer that keeps a `.part` file and
 * a sidecar next to the destination, and the protocol it makes with the daemon
 * over any number of runs, failures and kills.
 *
 * The daemon is the environment.  It honours a hint only if the remote file still
 * has the recorded size and modification time, announces where it starts, and then
 * sends the source from there on, in chunks of any size, possibly stopping early.
 */
module Resume {
  import opened Bytes

  type Data = seq<byte>

  datatype Transfer = Transfer(target: string, remotePath: string)

  /** What `.part.meta` holds; `Garbage` is any text that does not parse. */
  datatype Meta =
    | Missing
    | Garbage
    | Sidecar(id: Transfer, relativePath: string, offset: nat, size: nat, mtime: int)

  datatype Disk = Disk(part: Option<Data>, meta: Meta, dest: Option<Data>)

  datatype Context = Context(id: Transfer, expected: nat)

  /** The writer of one single-file download. */
  datatype Writer = Writer(resume: Option<Context>, open: bool, incomplete: bool, applied: nat,
                           size: nat, mtime: int, relativePath: string)

  datatype Frame =
    | BeginFile(relativePath: string, size: nat, mtime: int, startOffset: nat)
    | FileData(data: Data)
    | EndFile
    | BeginDirectory
    | EndOfStream

  datatype Outcome = Outcome(ok: bool, writer: Writer, disk: Disk)

  function OrEmpty(file: Option<Data>): Data {
    if file.Some? then file.value else []
  }

  /** The sidecar a run may use: this transfer's, and as long as the `.part` file. */
  function ReadSidecar(d: Disk, id: Transfer): (r: Option<Meta>)
    ensures r.Some? ==> r.value.Sidecar? && d.part.Some? && |d.part.value| == r.value.offset > 0
    ensures r.Some? ==> r.value == d.meta && r.value.id.target == id.target && r.value.id.remotePath == id.remotePath
  {
    if d.meta.Sidecar? && d.meta.id == id && d.meta.offset != 0
       && d.part.Some? && |d.part.value| == d.meta.offset
    then Some(d.meta)
    else None
  }

  function NewWriter(resume: Option<Context>): Writer {
    Writer(resume, false, false, 0, 0, 0, "")
  }

  function Begun(w: Writer, relativePath: string, size: nat, mtime: int, baseline: nat): Writer {
    Writer(w.resume, true, true, baseline, size, mtime, relativePath)
  }

  function ApplyFrame(w: Writer, d: Disk, f: Frame): Outcome {
    match f
    case BeginFile(relativePath, size, mtime, start) =>
      if w.resume.None? then
        Outcome(true, Begun(w, relativePath, size, mtime, 0), d.(dest := Some([])))
      else if start > 0 && start != w.resume.value.expected then
        Outcome(false, w, d)
      else
        Outcome(true, Begun(w, relativePath, size, mtime, start),
                d.(part := Some(if start > 0 then OrEmpty(d.part) else [])))
    case FileData(data) =>
      if !w.open then Outcome(false, w, d)
      else
        Outcome(true, w.(applied := w.applied + |data|),
                if w.resume.Some? then d.(part := Some(OrEmpty(d.part) + data))
                else d.(dest := Some(OrEmpty(d.dest) + data)))
    case EndFile => Outcome(true, w.(open := false, incomplete := false), d)
    case BeginDirectory => Outcome(false, w, d)
    case EndOfStream => Outcome(true, w.(open := false), d)
  }

  function SidecarOf(w: Writer): Meta
    requires w.resume.Some?
  {
    Sidecar(w.resume.value.id, w.relativePath, w.applied, w.size, w.mtime)
  }

  function AfterFailure(w: Writer, d: Disk): Outcome {
    if w.resume.Some? then
      Outcome(true, w.(open := false, incomplete := false),
              if w.applied > 0 then d.(meta := SidecarOf(w)) else d)
    else
      Outcome(true, w.(open := false, incomplete := false), if w.incomplete then d.(dest := None) else d)
  }

  function AfterPublish(w: Writer, d: Disk): Outcome {
    if w.resume.None? then Outcome(true, w, d)
    else if d.part.None? then Outcome(false, w.(resume := None), d)
    else Outcome(true, w.(resume := None), Disk(None, Missing, d.part))
  }

  class Files {
    var part: Option<Data>
    var meta: Meta
    var dest: Option<Data>

    ghost function Now(): Disk
      reads this
    {
      Disk(part, meta, dest)
    }
  }

  class CopyDownloadWriter {
    const files: Files
    var resume: Option<Context>
    var open: bool
    var incomplete: bool
    var applied: nat
    var size: nat
    var mtime: int
    var relativePath: string

    ghost function Now(): Writer
      reads this
    {
      Writer(resume, open, incomplete, applied, size, mtime, relativePath)
    }

    constructor (files: Files, resume: Option<Context>)
      ensures this.files == files && Now() == NewWriter(resume)
    {
      this.files := files;
      this.resume := resume;
      open, incomplete, applied, size, mtime, relativePath := false, false, 0, 0, 0, "";
    }

    method Apply(f: Frame) returns (ok: bool)
      modifies this, files
      ensures Outcome(ok, Now(), files.Now()) == ApplyFrame(old(Now()), old(files.Now()), f)
      ensures f.FileData? ==> (ok <==> old(open))
      ensures f.BeginDirectory? ==> !ok
      ensures f.EndFile? || f.EndOfStream? ==> ok && !open
      ensures f.BeginFile? ==>
                (ok <==> old(resume).None? || f.startOffset == 0 || f.startOffset == old(resume).value.expected)
      ensures !ok ==> Now() == old(Now()) && files.Now() == old(files.Now())
    {
      match f {
        case BeginFile(rel, fullSize, modified, start) =>
          var baseline := 0;
          if resume.Some? {
            if start > 0 {
              if start != resume.value.expected {
                return false;
              }
              if files.part.None? {
                files.part := Some([]);
              }
            } else {
              files.part := Some([]);
            }
            baseline := start;
          } else {
            files.dest := Some([]);
          }
          applied := baseline;
          size := fullSize;
          mtime := modified;
          relativePath := rel;
          open := true;
          incomplete := true;
        case FileData(data) =>
          if !open {
            return false;
          }
          if resume.Some? {
            files.part := Some(OrEmpty(files.part) + data);
          } else {
            files.dest := Some(OrEmpty(files.dest) + data);
          }
          applied := applied + |data|;
        case EndFile =>
          open := false;
          incomplete := false;
        case BeginDirectory =>
          return false;
        case EndOfStream =>
          open := false;
      }
      ok := true;
    }

    method HandleFailure()
      modifies this, files
      ensures Outcome(true, Now(), files.Now()) == AfterFailure(old(Now()), old(files.Now()))
      ensures old(resume).Some? ==> files.part == old(files.part) && files.dest == old(files.dest)
      ensures old(resume).Some? && old(applied) > 0 ==>
                files.meta == Sidecar(old(resume).value.id, old(relativePath), old(applied), old(size), old(mtime))
      ensures old(resume).None? ==> files.dest == if old(incomplete) then None else old(files.dest)
    {
      open := false;
      if resume.Some? {
        if applied > 0 {
          files.meta := Sidecar(resume.value.id, relativePath, applied, size, mtime);
        }
        incomplete := false;
      } else if incomplete {
        incomplete := false;
        files.dest := None;
      }
    }

    method Publish() returns (ok: bool)
      modifies this, files
      ensures Outcome(ok, Now(), files.Now()) == AfterPublish(old(Now()), old(files.Now()))
      ensures ok <==> old(resume).None? || old(files.part).Some?
      ensures ok && old(resume).Some? ==> files.dest == old(files.part) && files.part == None && files.meta == Missing
      ensures !ok || old(resume).None? ==> files.Now() == old(files.Now())
    {
      if resume.Some? {
        resume := None;
        if files.part.None? {
          return false;
        }
        files.dest := files.part;
        files.part := None;
        files.meta := Missing;
      }
      ok := true;
    }
  }

  // ---------------------------------------------------------------------------
  // The protocol, one disk effect at a time
  // ---------------------------------------------------------------------------

  datatype Version = Version(content: Data, mtime: int)

  function Fingerprint(v: Version): (nat, int) {
    (|v.content|, v.mtime)
  }

  datatype Client =
    | Idle
    | Running(hint: Option<Meta>, began: bool, writer: Writer)
    | Failing(writer: Writer, torn: bool)
    | Publishing(complete: bool, began: bool, writer: Writer)
    | Published(complete: bool)

  /**
   * `source` is the remote file as it is now, `name` its entry name, and `seen`
   * the fingerprints of every version there has been.
   */
  datatype World = World(id: Transfer, name: string, disk: Disk, client: Client, source: Version,
                         seen: set<(nat, int)>)

  datatype Action =
    | Start
    | Begin
    | Chunk(data: Data)
    | Retry                              // after a stall the daemon announces again, at the byte it had reached
    | WriteFails(data: Data, kept: nat)  // only the first `kept` bytes reach the disk
    | EndOfFile
    | EndOfFrames
    | Complete
    | Stop                               // the stream just ends, or the user declines
    | Error
    | LoseTail(keep: nat)                // the last flush did not reach the disk
    | TearSidecar                        // the sidecar is opened for writing: old text gone
    | WriteSidecar
    | GiveUp                             // nothing received: no sidecar to write
    | Rename
    | RemoveSidecar
    | Kill(keep: nat)                    // only the first `keep` bytes of `.part` survive
    | Replace(version: Version)

  /** Where the daemon starts: at the hint if it still describes the source. */
  function HonouredOffset(hint: Option<Meta>, name: string, source: Version): (r: nat)
    requires hint.Some? ==> hint.value.Sidecar?
    ensures r <= |source.content|
  {
    if hint.Some? && hint.value.relativePath == name
       && (hint.value.size, hint.value.mtime) == Fingerprint(source)
       && 0 < hint.value.offset <= |source.content|
    then hint.value.offset
    else 0
  }

  function Prefix(file: Option<Data>, keep: nat): Option<Data> {
    if file.Some? && keep < |file.value| then Some(file.value[..keep]) else file
  }

  predicate Receiving(w: World) {
    w.client.Running? && w.client.began && w.client.writer.open
  }

  /** `data` is what comes next in the source. */
  predicate IsNext(w: World, data: Data) {
    && Receiving(w)
    && w.client.writer.applied + |data| <= |w.source.content|
    && data == w.source.content[w.client.writer.applied..][..|data|]
  }

  predicate Enabled(w: World, a: Action) {
    match a
    case Start => w.client.Idle?
    case Begin => w.client.Running? && !w.client.began
    case Chunk(data) => IsNext(w, data)
    case Retry => w.client.Running? && w.client.began
    case WriteFails(data, kept) => kept <= |data| && IsNext(w, data)
    case EndOfFile => Receiving(w)
    case EndOfFrames => w.client.Running? && w.client.began
    case Complete => w.client.Running? && w.client.began && w.client.writer.applied == |w.source.content|
    case Stop => w.client.Running?
    case Error => w.client.Running?
    case LoseTail(_) => w.client.Failing?
    case TearSidecar => w.client.Failing? && !w.client.torn && w.client.writer.applied > 0
    case WriteSidecar => w.client.Failing? && w.client.torn && w.client.writer.resume.Some?
    case GiveUp => w.client.Failing? && w.client.writer.applied == 0
    case Rename => w.client.Publishing?
    case RemoveSidecar => w.client.Published?
    case Kill(_) => true
    case Replace(v) => w.client.Idle? && Fingerprint(v) !in w.seen
  }

  function Started(w: World): World {
    var hint := ReadSidecar(w.disk, w.id);
    var expected := if hint.Some? then hint.value.offset else 0;
    w.(client := Running(hint, false, NewWriter(Some(Context(w.id, expected)))))
  }

  /** What a frame does to a running client; a refused frame fails the run. */
  function Framed(w: World, f: Frame): World
    requires w.client.Running?
  {
    var o := ApplyFrame(w.client.writer, w.disk, f);
    w.(disk := o.disk,
       client := if o.ok then Running(w.client.hint, w.client.began || f.BeginFile?, o.writer)
                 else Failing(o.writer, false))
  }

  function BeginFrame(w: World): Frame
    requires w.client.Running? && (w.client.hint.Some? ==> w.client.hint.value.Sidecar?)
  {
    BeginFile(w.name, |w.source.content|, w.source.mtime, HonouredOffset(w.client.hint, w.name, w.source))
  }

  /** The source is as it was, so the daemon honours its own record of what it sent. */
  function RetryFrame(w: World): Frame
    requires w.client.Running?
  {
    BeginFile(w.name, |w.source.content|, w.source.mtime, w.client.writer.applied)
  }

  function Renamed(w: World): World
    requires w.client.Publishing?
  {
    if w.disk.part.None? then w.(client := Idle)
    else w.(disk := w.disk.(dest := w.disk.part, part := None), client := Published(w.client.complete))
  }

  predicate WellFormed(w: World) {
    w.client.Running? && w.client.hint.Some? ==> w.client.hint.value.Sidecar?
  }

  function Next(w: World, a: Action): World
    requires Enabled(w, a)
    requires WellFormed(w)
  {
    match a
    case Start => Started(w)
    case Begin => Framed(w, BeginFrame(w))
    case Chunk(data) => Framed(w, FileData(data))
    case Retry => Framed(w, RetryFrame(w))
    case WriteFails(data, kept) =>
      w.(disk := ApplyFrame(w.client.writer, w.disk, FileData(data[..kept])).disk,
         client := Failing(w.client.writer, false))
    case EndOfFile => Framed(w, EndFile)
    case EndOfFrames => Framed(w, EndOfStream)
    case Complete => w.(client := Publishing(true, true, w.client.writer))
    case Stop => w.(client := Publishing(false, w.client.began, w.client.writer))
    case Error => w.(client := Failing(w.client.writer, false))
    case LoseTail(keep) => w.(disk := w.disk.(part := Prefix(w.disk.part, keep)))
    case TearSidecar => w.(disk := w.disk.(meta := Garbage), client := w.client.(torn := true))
    case WriteSidecar => w.(disk := w.disk.(meta := SidecarOf(w.client.writer)), client := Idle)
    case GiveUp => w.(client := Idle)
    case Rename => Renamed(w)
    case RemoveSidecar => w.(disk := w.disk.(meta := Missing), client := Idle)
    case Kill(keep) => w.(disk := w.disk.(part := Prefix(w.disk.part, keep)), client := Idle)
    case Replace(v) => w.(source := v, seen := w.seen + {Fingerprint(v)})
  }

  // ---------------------------------------------------------------------------
  // The invariant
  // ---------------------------------------------------------------------------

  predicate IsPrefix(file: Option<Data>, content: Data) {
    file.Some? ==> file.value <= content
  }

  /** A sidecar of this transfer that names the current version vouches for `.part`. */
  predicate Vouched(w: World) {
    w.disk.meta.Sidecar? && w.disk.meta.id == w.id ==>
      && (w.disk.meta.size, w.disk.meta.mtime) in w.seen
      && ((w.disk.meta.size, w.disk.meta.mtime) == Fingerprint(w.source) ==> IsPrefix(w.disk.part, w.source.content))
  }

  /** A writer that has begun holds the first `applied` bytes of the current version. */
  predicate Holds(w: World, writer: Writer) {
    && w.disk.part.Some? && w.disk.part.value <= w.source.content
    && |w.disk.part.value| == writer.applied
    && (writer.size, writer.mtime) == Fingerprint(w.source) && writer.relativePath == w.name
  }

  predicate ClientInv(w: World) {
    match w.client
    case Idle => true
    case Running(hint, began, writer) =>
      && writer.resume.Some? && writer.resume.value.id == w.id
      && (hint.Some? ==> hint.value.Sidecar?)
      && (began ==> Holds(w, writer))
      && (!began ==> !writer.open && writer.applied == 0 && hint == ReadSidecar(w.disk, w.id)
                     && writer.resume.value.expected == if hint.Some? then hint.value.offset else 0)
    case Failing(writer, torn) =>
      && writer.resume.Some? && writer.resume.value.id == w.id
      && (writer.applied > 0 ==>
            IsPrefix(w.disk.part, w.source.content) && (writer.size, writer.mtime) == Fingerprint(w.source))
      && (torn ==> writer.applied > 0)
    case Publishing(complete, began, writer) =>
      && (began ==> Holds(w, writer))
      && (complete ==> w.disk.part == Some(w.source.content))
    case Published(complete) => complete ==> w.disk.dest == Some(w.source.content)
  }

  predicate Inv(w: World) {
    Fingerprint(w.source) in w.seen && Vouched(w) && ClientInv(w)
  }

  lemma FrameKeeps(w: World, a: Action)
    requires Inv(w) && Enabled(w, a) && (a.Chunk? || a.EndOfFile? || a.EndOfFrames?)
    ensures Inv(Next(w, a))
  {
    if a.Chunk? {
      ChunkExtends(w, a.data, |a.data|);
    }
  }

  lemma ChunkExtends(w: World, data: Data, kept: nat)
    requires Inv(w) && Enabled(w, Chunk(data)) && kept <= |data|
    ensures w.disk.part.Some? && w.disk.part.value + data[..kept] <= w.source.content
    ensures data[..|data|] == data
  {
    var c, n := w.source.content, w.client.writer.applied;
    assert c[n..][..|data|] == c[n..n + |data|];
    assert data[..kept] == c[n..n + kept];
    assert c[..n + kept] == c[..n] + c[n..n + kept];
    assert w.disk.part.value == c[..n];
  }

  /** The offset check never refuses the first announcement of an honest daemon. */
  lemma BeginIsAccepted(w: World)
    requires Inv(w) && Enabled(w, Begin)
    ensures Next(w, Begin).client.Running? && Inv(Next(w, Begin))
    ensures Next(w, Begin).client.writer.applied == HonouredOffset(w.client.hint, w.name, w.source)
  {
  }

  /**
   * A second announcement in the same run is accepted exactly at byte zero or at the byte this run
   * itself resumed from.  Accepted or refused, no byte of `.part` is lost or doubled.
   */
  lemma RetryAcceptedIff(w: World)
    requires Inv(w) && Enabled(w, Retry)
    ensures Inv(Next(w, Retry)) && Next(w, Retry).disk == w.disk
    ensures Next(w, Retry).client.Running?
       <==> w.client.writer.applied == 0 || w.client.writer.applied == w.client.writer.resume.value.expected
  {
    if w.client.writer.applied == 0 {
      assert w.disk.part.value == [];
    }
  }

  lemma FailureKeeps(w: World, a: Action)
    requires Inv(w) && Enabled(w, a)
    requires a.WriteFails? || a.LoseTail? || a.Kill? || a.Error? || a.TearSidecar? || a.WriteSidecar? || a.GiveUp?
    ensures Inv(Next(w, a))
  {
    if a.WriteFails? {
      ChunkExtends(w, a.data, a.kept);
    }
  }

  lemma OtherKeeps(w: World, a: Action)
    requires Inv(w) && Enabled(w, a)
    requires a.Start? || a.Complete? || a.Stop? || a.Rename? || a.RemoveSidecar? || a.Replace?
    ensures Inv(Next(w, a))
  {
    if a.Complete? {
      assert w.disk.part.value == w.source.content;
    }
  }

  lemma StepKeeps(w: World, a: Action)
    requires Inv(w) && Enabled(w, a)
    ensures Inv(Next(w, a))
  {
    hide Next, Inv, Enabled;
    if a.Begin? {
      BeginIsAccepted(w);
    } else if a.Retry? {
      RetryAcceptedIff(w);
    } else if a.Chunk? || a.EndOfFile? || a.EndOfFrames? {
      FrameKeeps(w, a);
    } else if a.Start? || a.Complete? || a.Stop? || a.Rename? || a.RemoveSidecar? || a.Replace? {
      OtherKeeps(w, a);
    } else {
      FailureKeeps(w, a);
    }
  }

  // ---------------------------------------------------------------------------
  // Whole histories
  // ---------------------------------------------------------------------------

  /** Any files may lie there, also another transfer's sidecar over any `.part`; only none of this transfer's. */
  predicate Initial(w: World) {
    && w.client.Idle? && w.seen == {Fingerprint(w.source)}
    && (w.disk.meta.Sidecar? ==> w.disk.meta.id != w.id)
  }

  predicate IsHistory(w: World, actions: seq<Action>)
    decreases |actions|
  {
    actions != [] ==> WellFormed(w) && Enabled(w, actions[0]) && IsHistory(Next(w, actions[0]), actions[1..])
  }

  function After(w: World, actions: seq<Action>): World
    requires IsHistory(w, actions)
    decreases |actions|
  {
    if actions == [] then w else After(Next(w, actions[0]), actions[1..])
  }

  lemma {:induction false} HistoryKeeps(w: World, actions: seq<Action>)
    requires Inv(w) && IsHistory(w, actions)
    ensures Inv(After(w, actions))
    decreases |actions|
  {
    hide Inv, Next, Enabled;
    if actions != [] {
      StepKeeps(w, actions[0]);
      HistoryKeeps(Next(w, actions[0]), actions[1..]);
    }
  }

  /**
   * After any history, a sidecar that a run would use and that names the current
   * version is right: `.part` is exactly that many bytes of the current source.
   */
  lemma UsableSidecarIsRight(start: World, actions: seq<Action>)
    requires Initial(start) && IsHistory(start, actions)
    ensures var w := After(start, actions);
            var s := ReadSidecar(w.disk, w.id);
            s.Some? && (s.value.size, s.value.mtime) == Fingerprint(w.source) ==>
              s.value.offset <= |w.source.content| && w.disk.part == Some(w.source.content[..s.value.offset])
  {
    hide Next, Enabled, IsHistory, After;
    HistoryKeeps(start, actions);
    var w := After(start, actions);
    if w.disk.part.Some? && w.disk.part.value <= w.source.content {
      assert w.disk.part.value == w.source.content[..|w.disk.part.value|];
    }
  }

  /** After any history, a run that ended on Complete publishes exactly the current source. */
  lemma CompletePublishesSource(start: World, actions: seq<Action>)
    requires Initial(start) && IsHistory(start, actions)
    ensures var w := After(start, actions);
            w.client.Publishing? && w.client.complete ==>
              Renamed(w).client.Published? && Renamed(w).disk.dest == Some(w.source.content)
  {
    hide Next, Enabled, IsHistory, After;
    HistoryKeeps(start, actions);
  }

  /** A run that finds another transfer's sidecar, or none, gives no hint and starts over at byte zero. */
  lemma ForeignSidecarStartsFresh(w: World)
    requires Inv(w) && w.client.Idle? && (w.disk.meta.Sidecar? ==> w.disk.meta.id != w.id)
    ensures var begun := Next(Next(w, Start), Begin);
            && Next(w, Start).client.hint == None && BeginFrame(Next(w, Start)).startOffset == 0
            && begun.client.Running? && begun.client.writer.applied == 0 && begun.disk.part == Some([])
  {
  }

  /** A usable sidecar of this transfer is given as the hint, and honoured if it still fits. */
  lemma OwnSidecarIsUsed(w: World)
    requires Inv(w) && w.client.Idle? && w.disk.meta.Sidecar? && w.disk.meta.id == w.id && w.disk.meta.relativePath == w.name
    requires w.disk.part.Some? && |w.disk.part.value| == w.disk.meta.offset > 0
    requires (w.disk.meta.size, w.disk.meta.mtime) == Fingerprint(w.source)
    ensures var begun := Next(Next(w, Start), Begin);
            begun.client.Running? && begun.client.writer.applied == w.disk.meta.offset && begun.disk.part == w.disk.part
  {
  }

  /** Until a run publishes, nothing it does touches the destination. */
  lemma OnlyRenameTouchesDestination(w: World, a: Action)
    requires Inv(w) && Enabled(w, a) && !a.Rename?
    ensures Next(w, a).disk.dest == w.disk.dest
  {
  }

  /** A reported failure loses nothing: the next run of the same version starts where this one stopped. */
  lemma FailureThenResume(w: World)
    requires Inv(w) && w.client.Running? && w.client.began && w.client.writer.applied > 0
    ensures IsHistory(w, [Error, TearSidecar, WriteSidecar, Start, Begin])
    ensures var again := After(w, [Error, TearSidecar, WriteSidecar, Start, Begin]);
            && again.client.Running? && again.client.began
            && again.client.writer.applied == w.client.writer.applied
            && again.disk.part == w.disk.part
  {
    var w1 := Next(w, Error);
    var w2 := Next(w1, TearSidecar);
    var w3 := Next(w2, WriteSidecar);
    var w4 := Next(w3, Start);
    var w5 := Next(w4, Begin);
    assert After(w4, [Begin]) == w5;
    assert [Error, TearSidecar, WriteSidecar, Start, Begin][1..] == [TearSidecar, WriteSidecar, Start, Begin];
    assert [TearSidecar, WriteSidecar, Start, Begin][1..] == [WriteSidecar, Start, Begin];
    assert [WriteSidecar, Start, Begin][1..] == [Start, Begin];
    assert [Start, Begin][1..] == [Begin];
  }

  /**
   * A run may reach the rename without Complete.  If it had begun, what it
   * publishes is the source exactly when it had received all of it.
   */
  lemma UnfinishedPublishIff(start: World, actions: seq<Action>)
    requires Initial(start) && IsHistory(start, actions)
    requires var w := After(start, actions); w.client.Publishing? && w.client.began
    ensures var w := After(start, actions);
            Renamed(w).disk.dest == Some(w.source.content) <==> w.client.writer.applied == w.client.writer.size
  {
    hide Next, Enabled, IsHistory, After;
    HistoryKeeps(start, actions);
    var w := After(start, actions);
    if |w.disk.part.value| == |w.source.content| {
      assert w.disk.part.value == w.source.content;
    }
  }

  /** What `.part` was copied from: the source at the last announcement, or else what was there at first. */
  function OriginAfter(w: World, a: Action, origin: Data): Data {
    if a.Begin? then w.source.content else origin
  }

  function Origin(w: World, actions: seq<Action>, origin: Data): Data
    requires IsHistory(w, actions)
    decreases |actions|
  {
    if actions == [] then origin
    else Origin(Next(w, actions[0]), actions[1..], OriginAfter(w, actions[0], origin))
  }

  predicate HasBegun(w: World) {
    (w.client.Running? || w.client.Publishing?) && w.client.began
  }

  predicate OriginInv(w: World, origin: Data) {
    IsPrefix(w.disk.part, origin) && (HasBegun(w) ==> origin == w.source.content)
  }

  lemma OriginStep(w: World, a: Action, origin: Data)
    requires Inv(w) && Enabled(w, a) && OriginInv(w, origin)
    ensures OriginInv(Next(w, a), OriginAfter(w, a, origin))
  {
    if a.Chunk? {
      ChunkExtends(w, a.data, |a.data|);
    } else if a.WriteFails? {
      ChunkExtends(w, a.data, a.kept);
    } else if a.Begin? {
      BeginIsAccepted(w);
    }
  }

  lemma {:induction false} OriginHolds(w: World, actions: seq<Action>, origin: Data)
    requires Inv(w) && IsHistory(w, actions) && OriginInv(w, origin)
    ensures OriginInv(After(w, actions), Origin(w, actions, origin))
    decreases |actions|
  {
    hide Inv, Next, Enabled, OriginInv, OriginAfter;
    if actions != [] {
      StepKeeps(w, actions[0]);
      OriginStep(w, actions[0], origin);
      OriginHolds(Next(w, actions[0]), actions[1..], OriginAfter(w, actions[0], origin));
    }
  }

  /**
   * If it had not begun, it publishes whatever `.part` was left from before, sidecar or not.  That is
   * the source exactly when it has the source's length and came from a version the source begins.
   * When the last announcement was of the present version, the length alone decides.
   */
  lemma UnbegunPublishIff(start: World, actions: seq<Action>)
    requires Initial(start) && IsHistory(start, actions)
    requires var w := After(start, actions); w.client.Publishing? && !w.client.began
    ensures var w := After(start, actions);
            var origin := Origin(start, actions, OrEmpty(start.disk.part));
            && (w.disk.part.None? ==> Renamed(w).disk == w.disk)
            && (w.disk.part.Some? ==>
                  && Renamed(w).disk.dest == w.disk.part
                  && (Renamed(w).disk.dest == Some(w.source.content)
                      <==> |w.disk.part.value| == |w.source.content| && w.source.content <= origin))
            && (w.disk.part.Some? && origin == w.source.content ==>
                  (Renamed(w).disk.dest == Some(w.source.content) <==> |w.disk.part.value| == |w.source.content|))
  {
    hide Next, Enabled, IsHistory, After, Origin;
    var w, origin := After(start, actions), Origin(start, actions, OrEmpty(start.disk.part));
    OriginHolds(start, actions, OrEmpty(start.disk.part));
    if w.disk.part.Some? && |w.disk.part.value| == |w.source.content| && w.source.content <= origin {
      assert w.disk.part.value == origin[..|w.source.content|] == w.source.content;
    }
  }

  /** Over a sidecar for the current version, what the sidecar itself records decides it. */
  lemma SidecarPublishIff(start: World, actions: seq<Action>)
    requires Initial(start) && IsHistory(start, actions)
    requires var w := After(start, actions);
             var s := ReadSidecar(w.disk, w.id);
             && w.client.Publishing? && !w.client.began
             && s.Some? && (s.value.size, s.value.mtime) == Fingerprint(w.source)
    ensures var w := After(start, actions);
            Renamed(w).disk.dest == Some(w.source.content) <==> w.disk.meta.offset == w.disk.meta.size
  {
    hide Next, Enabled, IsHistory, After;
    HistoryKeeps(start, actions);
    var w := After(start, actions);
    if |w.disk.part.value| == |w.source.content| {
      assert w.disk.part.value == w.source.content;
    }
  }

  lemma {:induction false} HistoryExtends(w: World, actions: seq<Action>, a: Action)
    requires IsHistory(w, actions) && WellFormed(After(w, actions)) && Enabled(After(w, actions), a)
    ensures IsHistory(w, actions + [a]) && After(w, actions + [a]) == Next(After(w, actions), a)
    decreases |actions|
  {
    hide Next, Enabled, WellFormed;
    if actions == [] {
      assert [a][1..] == [];
    } else {
      assert (actions + [a])[1..] == actions[1..] + [a];
      HistoryExtends(Next(w, actions[0]), actions[1..], a);
    }
  }

  const TWO_BYTES: World := World(Transfer("host", "/f"), "f", Disk(None, Missing, Some([9])), Idle,
                                  Version([1, 2], 0), {(2, 0)})

  /** The run begins. */
  const BEGUN: seq<Action> := [Start] + [Begin]

  /** One byte arrives and the client is killed. */
  const CUT_SHORT: seq<Action> := BEGUN + [Chunk([1])] + [Kill(1)]

  lemma EmptyHistory(w: World)
    ensures IsHistory(w, []) && After(w, []) == w
  {
  }

  lemma BegunHistory()
    ensures Initial(TWO_BYTES) && IsHistory(TWO_BYTES, BEGUN)
    ensures var w := After(TWO_BYTES, BEGUN);
            && Receiving(w) && WellFormed(w) && w.client.writer.applied == 0 && w.client.writer.resume.Some?
            && w.disk.meta == Missing && w.source == TWO_BYTES.source && w.disk.part == Some([])
    ensures Origin(TWO_BYTES, BEGUN, []) == [1, 2]
  {
    hide IsHistory, After, Origin;
    EmptyHistory(TWO_BYTES);
    HistoryExtends(TWO_BYTES, [], Start);
    assert [] + [Start] == [Start];
    HistoryExtends(TWO_BYTES, [Start], Begin);
    OriginExtends(TWO_BYTES, [Start], Begin, []);
  }

  /** A stream that just ends after the announcement puts an empty file over the destination. */
  lemma EndingEarlyPublishesNothing()
    ensures IsHistory(TWO_BYTES, BEGUN + [Stop] + [Rename])
    ensures var w := After(TWO_BYTES, BEGUN + [Stop] + [Rename]); w.disk.dest == Some([]) && w.source.content == [1, 2]
  {
    hide IsHistory, After, Origin;
    BegunHistory();
    HistoryExtends(TWO_BYTES, BEGUN, Stop);
    HistoryExtends(TWO_BYTES, BEGUN + [Stop], Rename);
  }

  lemma CutShortHistory()
    ensures IsHistory(TWO_BYTES, CUT_SHORT)
    ensures var w := After(TWO_BYTES, CUT_SHORT);
            && w.client.Idle? && w.disk.meta == Missing
            && w.source == TWO_BYTES.source && w.disk.part == Some([1])
    ensures Origin(TWO_BYTES, CUT_SHORT, []) == [1, 2]
  {
    hide IsHistory, After, Origin;
    BegunHistory();
    assert [1, 2][0..][..1] == [1];
    HistoryExtends(TWO_BYTES, BEGUN, Chunk([1]));
    assert [] + [1] == [1];
    HistoryExtends(TWO_BYTES, BEGUN + [Chunk([1])], Kill(1));
    OriginExtends(TWO_BYTES, BEGUN, Chunk([1]), []);
    OriginExtends(TWO_BYTES, BEGUN + [Chunk([1])], Kill(1), []);
  }

  lemma {:induction false} OriginExtends(w: World, actions: seq<Action>, a: Action, origin: Data)
    requires IsHistory(w, actions) && IsHistory(w, actions + [a])
    ensures Origin(w, actions + [a], origin) == OriginAfter(After(w, actions), a, Origin(w, actions, origin))
    decreases |actions|
  {
    hide Next, Enabled, WellFormed, OriginAfter;
    if actions == [] {
      assert [a][1..] == [];
    } else {
      assert (actions + [a])[1..] == actions[1..] + [a];
      OriginExtends(Next(w, actions[0]), actions[1..], a, OriginAfter(w, actions[0], origin));
    }
  }

  /** The killed run leaves no sidecar, and one byte of the present source. */
  const DECLINED: seq<Action> := CUT_SHORT + [Start] + [Stop]

  lemma DeclinedHistory()
    ensures IsHistory(TWO_BYTES, DECLINED)
    ensures var w := After(TWO_BYTES, DECLINED);
            && w.client.Publishing? && !w.client.began && ReadSidecar(w.disk, w.id).None?
            && w.source == TWO_BYTES.source && w.disk.part == Some([1])
    ensures Origin(TWO_BYTES, DECLINED, []) == [1, 2]
  {
    hide IsHistory, After, Origin;
    CutShortHistory();
    HistoryExtends(TWO_BYTES, CUT_SHORT, Start);
    HistoryExtends(TWO_BYTES, CUT_SHORT + [Start], Stop);
    OriginExtends(TWO_BYTES, CUT_SHORT, Start, []);
    OriginExtends(TWO_BYTES, CUT_SHORT + [Start], Stop, []);
  }

  /** Declining the confirmation of the next run puts the one byte over the destination. */
  lemma DecliningPublishesPartial()
    ensures IsHistory(TWO_BYTES, DECLINED + [Rename])
    ensures var w := After(TWO_BYTES, DECLINED + [Rename]);
            w.disk.dest == Some([1]) && w.source.content == [1, 2]
    ensures IsHistory(TWO_BYTES, DECLINED)
    ensures var w := After(TWO_BYTES, DECLINED);
            && w.client.Publishing? && !w.client.began && ReadSidecar(w.disk, w.id).None?
            && Origin(TWO_BYTES, DECLINED, []) == w.source.content
            && Renamed(w).disk.dest != Some(w.source.content)
  {
    hide IsHistory, After, Origin;
    DeclinedHistory();
    HistoryExtends(TWO_BYTES, DECLINED, Rename);
    UnbegunPublishIff(TWO_BYTES, DECLINED);
  }

  /** The writer's own methods are these small steps taken together. */
  lemma MethodsAreSteps(w: World)
    requires Inv(w)
    ensures w.client.Failing? && !w.client.torn && w.client.writer.applied > 0 ==>
              Next(Next(w, TearSidecar), WriteSidecar).disk == AfterFailure(w.client.writer, w.disk).disk
    ensures w.client.Publishing? && w.client.writer.resume.Some? && w.disk.part.Some? ==>
              Next(Next(w, Rename), RemoveSidecar).disk == AfterPublish(w.client.writer, w.disk).disk
  {
  }

  // ---------------------------------------------------------------------------
  // Without resume
  // ---------------------------------------------------------------------------

  function ApplyFrames(o: Outcome, frames: seq<Frame>): Outcome
    decreases |frames|
  {
    if frames == [] || !o.ok then o else ApplyFrames(ApplyFrame(o.writer, o.disk, frames[0]), frames[1..])
  }

  function DataFrames(chunks: seq<Data>): (r: seq<Frame>)
    ensures |r| == |chunks| && forall i :: 0 <= i < |r| ==> r[i] == FileData(chunks[i])
  {
    seq(|chunks|, i requires 0 <= i < |chunks| => FileData(chunks[i]))
  }

  lemma {:induction false} FramesConcat(o: Outcome, a: seq<Frame>, b: seq<Frame>)
    ensures ApplyFrames(o, a + b) == ApplyFrames(ApplyFrames(o, a), b)
    decreases |a|
  {
    hide ApplyFrame;
    if a == [] {
      assert a + b == b;
    } else if o.ok {
      assert (a + b)[1..] == a[1..] + b;
      FramesConcat(ApplyFrame(o.writer, o.disk, a[0]), a[1..], b);
    }
  }

  lemma OneFrame(w: Writer, d: Disk, f: Frame)
    ensures ApplyFrames(Outcome(true, w, d), [f]) == ApplyFrame(w, d, f)
  {
    hide ApplyFrame;
    assert [f][1..] == [];
  }

  lemma NoFrames(o: Outcome)
    ensures ApplyFrames(o, []) == o
  {
  }

  lemma {:induction false} PlainDataAppends(w: Writer, d: Disk, chunks: seq<Data>)
    requires w.open && w.resume.None? && d.dest.Some?
    ensures ApplyFrames(Outcome(true, w, d), DataFrames(chunks))
            == Outcome(true, w.(applied := w.applied + |Flatten(chunks)|), d.(dest := Some(d.dest.value + Flatten(chunks))))
    decreases |chunks|
  {
    if chunks == [] {
      assert d.dest.value + [] == d.dest.value;
    } else {
      var w1, d1 := w.(applied := w.applied + |chunks[0]|), d.(dest := Some(d.dest.value + chunks[0]));
      assert DataFrames(chunks)[1..] == DataFrames(chunks[1..]);
      PlainDataAppends(w1, d1, chunks[1..]);
      assert d.dest.value + chunks[0] + Flatten(chunks[1..]) == d.dest.value + Flatten(chunks);
    }
  }

  /** An announcement and the data after it, in a plain download: the file starts over, whatever the offset. */
  lemma PlainAttempt(w: Writer, d: Disk, name: string, size: nat, mtime: int, at: nat, chunks: seq<Data>)
    requires w.resume.None?
    ensures var o := ApplyFrames(Outcome(true, w, d), [BeginFile(name, size, mtime, at)] + DataFrames(chunks));
            && o.ok && o.writer.resume.None? && o.writer.open && o.writer.incomplete
            && o.disk == d.(dest := Some(Flatten(chunks)))
  {
    hide ApplyFrames;
    FramesConcat(Outcome(true, w, d), [BeginFile(name, size, mtime, at)], DataFrames(chunks));
    OneFrame(w, d, BeginFile(name, size, mtime, at));
    var w1, d1 := Begun(w, name, size, mtime, 0), d.(dest := Some([]));
    PlainDataAppends(w1, d1, chunks);
    assert [] + Flatten(chunks) == Flatten(chunks);
  }

  /**
   * A plain download that fails leaves no partial file: nothing is touched before the announcement, the
   * file goes if it had not ended, and stays, whole, if it had.
   */
  lemma PlainFailureLeavesNoPart(w: Writer, d: Disk, name: string, size: nat, mtime: int, at: nat, chunks: seq<Data>)
    requires w.resume.None?
    ensures AfterFailure(NewWriter(None), d).disk == d
    ensures var o := ApplyFrames(Outcome(true, w, d), [BeginFile(name, size, mtime, at)] + DataFrames(chunks));
            var ended := ApplyFrame(o.writer, o.disk, EndFile);
            && AfterFailure(o.writer, o.disk).disk == d.(dest := None)
            && AfterFailure(ended.writer, ended.disk).disk == d.(dest := Some(Flatten(chunks)))
  {
    hide ApplyFrames;
    PlainAttempt(w, d, name, size, mtime, at, chunks);
  }

  /**
   * The frames of a plain download that stalls once, after `first` (and after the end of the file, if
   * `ended`), and is then carried to its end.
   */
  function StalledStream(name: string, content: Data, mtime: int, first: seq<Data>, ended: bool, second: seq<Data>)
    : seq<Frame>
  {
    [BeginFile(name, |content|, mtime, 0)] + DataFrames(first) + (if ended then [EndFile] else [])
    + ([BeginFile(name, |content|, mtime, |Flatten(first)|)] + DataFrames(second)) + [EndFile]
  }

  /**
   * Every frame is accepted and the download ends well, with only the part after the stall on disk:
   * the destination is the source exactly when nothing had arrived before the stall.
   */
  lemma PlainRetryIff(w: Writer, d: Disk, name: string, content: Data, mtime: int, first: seq<Data>, ended: bool,
                      second: seq<Data>)
    requires w.resume.None? && Flatten(first) + Flatten(second) == content
    ensures var o := ApplyFrames(Outcome(true, w, d), StalledStream(name, content, mtime, first, ended, second));
            && o.ok && AfterPublish(o.writer, o.disk) == o
            && o.disk.dest == Some(content[|Flatten(first)|..])
            && (o.disk.dest == Some(content) <==> Flatten(first) == [])
  {
    hide ApplyFrames;
    var o := Outcome(true, w, d);
    var a := [BeginFile(name, |content|, mtime, 0)] + DataFrames(first);
    var e: seq<Frame> := if ended then [EndFile] else [];
    var b := [BeginFile(name, |content|, mtime, |Flatten(first)|)] + DataFrames(second);
    FramesConcat(o, a + e + b, [EndFile]);
    FramesConcat(o, a + e, b);
    FramesConcat(o, a, e);
    PlainAttempt(w, d, name, |content|, mtime, 0, first);
    var o1 := ApplyFrames(o, a);
    OneFrame(o1.writer, o1.disk, EndFile);
    NoFrames(o1);
    var o2 := ApplyFrames(o1, e);
    PlainAttempt(o2.writer, o2.disk, name, |content|, mtime, |Flatten(first)|, second);
    var o3 := ApplyFrames(o2, b);
    OneFrame(o3.writer, o3.disk, EndFile);
    assert content[|Flatten(first)|..] == Flatten(second);
  }
}
