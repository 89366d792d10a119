/**
 * Resumable uploads: the daemon reports the partial file it already has, the
 * client decides where to start by comparing digests, and streams the rest.
 * `hash` is the digest; reads return any number of bytes up to the buffer size.
 */
module Upload {
  import opened Bytes
  import opened Resume

  const BUFFER: nat := 64 * 1024

  datatype ResumeEntry = ResumeEntry(relativePath: string, offset: nat, size: nat, mtime: int, partialHash: string)

  // ---------------------------------------------------------------------------
  // The daemon's probe
  // ---------------------------------------------------------------------------

  /** How reading the partial file goes: a failed read comes after some bytes were returned. */
  datatype Access = Readable | OpenFails | ReadFails(after: nat)

  /** What the probe should answer for one entry. */
  function Reported(hash: Data -> string, partial: Option<Data>, access: Access, recursive: bool, e: ResumeEntry)
    : ResumeEntry
  {
    if !recursive && partial.Some? && 0 < |partial.value| <= e.size && access.Readable?
    then e.(offset := |partial.value|, partialHash := hash(partial.value))
    else e.(offset := 0, partialHash := "")
  }

  function ReportedAll(hash: Data -> string, partial: Option<Data>, access: Access, recursive: bool,
                       entries: seq<ResumeEntry>)
    : (r: seq<ResumeEntry>)
    ensures |r| == |entries|
  {
    seq(|entries|, i requires 0 <= i < |entries| => Reported(hash, partial, access, recursive, entries[i]))
  }

  /** Reads a whole file through the buffer; no count after a failed read, else the digest of all the bytes. */
  method HashWhole(hash: Data -> string, file: Data, access: Access) returns (total: Option<nat>, digest: string)
    requires !access.OpenFails?
    ensures access.Readable? ==> total == Some(|file|) && digest == hash(file)
    ensures access.ReadFails? ==> total == None
  {
    var hashed: Data := [];
    var at := 0;
    while at < |file|
      invariant at <= |file| && hashed == file[..at]
    {
      if access.ReadFails? && at >= access.after {
        return None, "";
      }
      var n: nat :| 1 <= n <= BUFFER && n <= |file| - at;
      hashed := hashed + file[at..at + n];
      assert file[..at + n] == file[..at] + file[at..at + n];
      at := at + n;
    }
    if access.ReadFails? {
      return None, "";
    }
    assert file[..at] == file;
    total, digest := Some(at), hash(hashed);
  }

  method ProbeUploadResume(hash: Data -> string, partial: Option<Data>, access: Access, recursive: bool,
                           entries: seq<ResumeEntry>)
    returns (out: seq<ResumeEntry>)
    ensures out == ReportedAll(hash, partial, access, recursive, entries)
    ensures |out| == |entries|
    ensures forall i :: 0 <= i < |out| ==>
              && out[i].relativePath == entries[i].relativePath && out[i].size == entries[i].size
              && out[i].mtime == entries[i].mtime
              && (out[i].offset > 0 <==> !recursive && access.Readable? && partial.Some? && partial.value != []
                                         && |partial.value| <= entries[i].size)
              && (out[i].offset > 0 ==> out[i].offset == |partial.value| && out[i].partialHash == hash(partial.value))
              && (out[i].offset == 0 ==> out[i].partialHash == "")
  {
    out := [];
    for i := 0 to |entries|
      invariant |out| == i
      invariant forall j :: 0 <= j < i ==> out[j] == Reported(hash, partial, access, recursive, entries[j])
    {
      var effective := entries[i].(offset := 0, partialHash := "");
      if !recursive && partial.Some? {
        var size := |partial.value|;
        if size > 0 && size <= entries[i].size && !access.OpenFails? {
          var read, digest := HashWhole(hash, partial.value, access);
          if read == Some(size) {
            effective := effective.(offset := size, partialHash := digest);
          }
        }
      }
      out := out + [effective];
    }
  }

  // ---------------------------------------------------------------------------
  // The client's decision
  // ---------------------------------------------------------------------------

  /** Digest of the first `upto` bytes; nothing if the file is shorter. */
  method PrefixHash(hash: Data -> string, file: Data, upto: nat) returns (r: Option<string>)
    ensures r == if upto <= |file| then Some(hash(file[..upto])) else None
  {
    var remaining := upto;
    var hashed: Data := [];
    while remaining > 0
      invariant 0 <= remaining <= upto && upto - remaining <= |file|
      invariant hashed == file[..upto - remaining]
    {
      var want := if remaining <= BUFFER then remaining else BUFFER;
      var at := upto - remaining;
      if at + want > |file| {
        return None;
      }
      hashed := hashed + file[at..at + want];
      assert file[..at + want] == file[..at] + file[at..at + want];
      remaining := remaining - want;
    }
    r := Some(hash(hashed));
  }

  /** The first entry for `name`, if it is usable. */
  function Candidate(ack: seq<ResumeEntry>, name: string): (r: Option<ResumeEntry>)
    ensures r.Some? ==> r.value in ack && r.value.relativePath == name && r.value.offset > 0
  {
    if ack == [] then None
    else if ack[0].relativePath != name then Candidate(ack[1..], name)
    else if ack[0].offset > 0 && ack[0].partialHash != "" then Some(ack[0])
    else None
  }

  function SkipFor(hash: Data -> string, ack: seq<ResumeEntry>, name: string, file: Data): (skip: nat) {
    var c := Candidate(ack, name);
    if c.Some? && c.value.offset <= |file| && hash(file[..c.value.offset]) == c.value.partialHash
    then c.value.offset
    else 0
  }

  ghost predicate IsFirstFor(ack: seq<ResumeEntry>, name: string, i: nat)
    requires i < |ack|
  {
    ack[i].relativePath == name && forall j :: 0 <= j < i ==> ack[j].relativePath != name
  }

  method ChooseSkip(hash: Data -> string, ack: seq<ResumeEntry>, name: string, file: Data) returns (skip: nat)
    ensures skip == SkipFor(hash, ack, name, file)
    ensures skip <= |file|
    ensures (forall i :: 0 <= i < |ack| ==> ack[i].relativePath != name) ==> skip == 0
    ensures forall i :: 0 <= i < |ack| && IsFirstFor(ack, name, i) ==>
              skip == if ack[i].partialHash != "" && ack[i].offset <= |file|
                         && hash(file[..ack[i].offset]) == ack[i].partialHash then ack[i].offset else 0
  {
    var i := 0;
    while i < |ack| && ack[i].relativePath != name
      invariant i <= |ack|
      invariant forall j :: 0 <= j < i ==> ack[j].relativePath != name
      invariant Candidate(ack, name) == Candidate(ack[i..], name)
    {
      assert ack[i..][1..] == ack[i + 1..];
      i := i + 1;
    }
    if i == |ack| || ack[i].offset == 0 || ack[i].partialHash == "" {
      return 0;
    }
    var local := PrefixHash(hash, file, ack[i].offset);
    skip := if local == Some(ack[i].partialHash) then ack[i].offset else 0;
  }

  // ---------------------------------------------------------------------------
  // The frames
  // ---------------------------------------------------------------------------

  ghost function Payload(frames: seq<Frame>): (r: Data) {
    if frames == [] then []
    else (if frames[0].FileData? then frames[0].data else []) + Payload(frames[1..])
  }

  lemma {:induction false} PayloadConcat(a: seq<Frame>, b: seq<Frame>)
    ensures Payload(a + b) == Payload(a) + Payload(b)
  {
    if a == [] {
      assert a + b == b;
    } else {
      assert (a + b)[1..] == a[1..] + b;
      PayloadConcat(a[1..], b);
    }
  }

  lemma PayloadOne(f: Frame)
    ensures Payload([f]) == if f.FileData? then f.data else []
  {
    assert [f][1..] == [];
  }

  /** One file: a header, data frames that fit the buffer, a trailer. */
  ghost predicate IsFileStream(frames: seq<Frame>, name: string, size: nat, mtime: int, skip: nat) {
    && |frames| >= 2
    && frames[0] == BeginFile(name, size, mtime, skip)
    && frames[|frames| - 1] == EndFile
    && forall i :: 1 <= i < |frames| - 1 ==> frames[i].FileData? && 0 < |frames[i].data| <= BUFFER
  }

  method SendFileFrom(file: Data, name: string, mtime: int, skip: nat) returns (ok: bool, frames: seq<Frame>)
    ensures ok <==> skip <= |file|
    ensures !ok ==> frames == []
    ensures ok ==> IsFileStream(frames, name, |file|, mtime, skip) && Payload(frames) == file[skip..]
  {
    if skip > |file| {
      return false, [];
    }
    var body := SendData(file, skip);
    frames := [BeginFile(name, |file|, mtime, skip)] + body + [EndFile];
    StreamOf(name, |file|, mtime, skip, body);
    ok := true;
  }

  ghost predicate IsBody(frames: seq<Frame>) {
    forall i :: 0 <= i < |frames| ==> frames[i].FileData? && 0 < |frames[i].data| <= BUFFER
  }

  /** The reading loop: one frame for each read, up to the end of the file. */
  method SendData(file: Data, skip: nat) returns (body: seq<Frame>)
    requires skip <= |file|
    ensures IsBody(body) && Payload(body) == file[skip..]
  {
    hide Payload;
    body := [];
    var at := skip;
    assert Payload(body) == file[skip..at] by { PayloadNone(); }
    while at < |file|
      invariant skip <= at <= |file| && IsBody(body)
      invariant Payload(body) == file[skip..at]
    {
      var n: nat :| 1 <= n <= BUFFER && n <= |file| - at;
      var data := FileData(file[at..at + n]);
      PayloadConcat(body, [data]);
      PayloadOne(data);
      assert file[skip..at + n] == file[skip..at] + file[at..at + n];
      body := body + [data];
      at := at + n;
    }
    assert file[skip..at] == file[skip..];
  }

  lemma PayloadNone()
    ensures Payload([]) == []
  {
  }

  lemma StreamOf(name: string, size: nat, mtime: int, skip: nat, body: seq<Frame>)
    requires IsBody(body)
    ensures var frames := [BeginFile(name, size, mtime, skip)] + body + [EndFile];
            IsFileStream(frames, name, size, mtime, skip) && Payload(frames) == Payload(body)
  {
    hide Payload;
    var header := BeginFile(name, size, mtime, skip);
    PayloadConcat([header] + body, [EndFile]);
    PayloadConcat([header], body);
    PayloadOne(header);
    PayloadOne(EndFile);
    assert [] + Payload(body) + [] == Payload(body);
  }

  /** The remote receiver: appends to the partial when the stream starts past zero, else starts over. */
  ghost function Received(partial: Option<Data>, frames: seq<Frame>): Data
    requires |frames| > 0 && frames[0].BeginFile?
  {
    if frames[0].startOffset > 0 then OrEmpty(partial) + Payload(frames) else Payload(frames)
  }

  // ---------------------------------------------------------------------------
  // The whole exchange
  // ---------------------------------------------------------------------------

  ghost predicate Injective(hash: Data -> string) {
    && (forall a, b :: hash(a) == hash(b) ==> a == b)
    && (forall a :: hash(a) != "")
  }

  /** The partial file can be read, holds something, and is a prefix of the local file. */
  predicate IsUsable(partial: Option<Data>, access: Access, file: Data) {
    access.Readable? && partial.Some? && partial.value != [] && partial.value <= file
  }

  /** The client skips exactly a usable partial file. */
  lemma SkipIff(hash: Data -> string, partial: Option<Data>, access: Access, name: string, mtime: int, file: Data)
    requires Injective(hash)
    ensures var ack := ReportedAll(hash, partial, access, false, [ResumeEntry(name, 0, |file|, mtime, "")]);
            && (SkipFor(hash, ack, name, file) > 0 <==> IsUsable(partial, access, file))
            && (SkipFor(hash, ack, name, file) > 0 ==> SkipFor(hash, ack, name, file) == |partial.value|)
  {
    var e := ResumeEntry(name, 0, |file|, mtime, "");
    var ack := ReportedAll(hash, partial, access, false, [e]);
    assert ack == [Reported(hash, partial, access, false, e)];
    if access.Readable? && partial.Some? && 0 < |partial.value| <= |file| {
      assert Candidate(ack, name) == Some(ack[0]);
      var n := |partial.value|;
      assert hash(file[..n]) == hash(partial.value) <==> file[..n] == partial.value;
      assert partial.value <= file <==> file[..n] == partial.value;
    }
  }

  /** The acknowledgement of an honest daemon, whatever else it lists. */
  ghost predicate Honest(hash: Data -> string, partial: Option<Data>, ack: seq<ResumeEntry>, name: string) {
    forall i :: 0 <= i < |ack| && ack[i].relativePath == name && ack[i].offset > 0 && ack[i].partialHash != "" ==>
      partial.Some? && ack[i].offset == |partial.value| && ack[i].partialHash == hash(partial.value)
  }

  lemma ProbeIsHonest(hash: Data -> string, partial: Option<Data>, access: Access, recursive: bool,
                      entries: seq<ResumeEntry>, name: string)
    ensures Honest(hash, partial, ReportedAll(hash, partial, access, recursive, entries), name)
  {
  }

  lemma {:induction false} CandidateIsListed(ack: seq<ResumeEntry>, name: string)
    ensures Candidate(ack, name).Some? ==>
              exists i :: 0 <= i < |ack| && ack[i] == Candidate(ack, name).value
                          && ack[i].relativePath == name && ack[i].offset > 0 && ack[i].partialHash != ""
  {
    if ack != [] && ack[0].relativePath != name {
      CandidateIsListed(ack[1..], name);
      if Candidate(ack, name).Some? {
        var i :| 0 <= i < |ack[1..]| && ack[1..][i] == Candidate(ack, name).value
                 && ack[1..][i].relativePath == name && ack[1..][i].offset > 0 && ack[1..][i].partialHash != "";
        assert ack[i + 1] == ack[1..][i];
      }
    }
  }

  /**
   * Whatever the file, the partial, the acknowledgement's other entries and the
   * sizes of the reads: what the remote side ends up with is the local file.
   */
  lemma UploadRebuildsFile(hash: Data -> string, partial: Option<Data>, ack: seq<ResumeEntry>, name: string,
                           mtime: int, file: Data, frames: seq<Frame>)
    requires Injective(hash) && Honest(hash, partial, ack, name)
    requires var skip := SkipFor(hash, ack, name, file);
             IsFileStream(frames, name, |file|, mtime, skip) && (skip <= |file| ==> Payload(frames) == file[skip..])
    ensures Received(partial, frames) == file
  {
    hide Candidate, IsFileStream, Payload;
    var skip := SkipFor(hash, ack, name, file);
    assert frames[0] == BeginFile(name, |file|, mtime, skip) by {
      HeaderOf(frames, name, |file|, mtime, skip);
    }
    assert file[0..] == file;
    if skip > 0 {
      CandidateIsListed(ack, name);
      var c := Candidate(ack, name).value;
      assert hash(file[..skip]) == hash(partial.value);
      assert file == file[..skip] + file[skip..];
    }
  }

  lemma HeaderOf(frames: seq<Frame>, name: string, size: nat, mtime: int, skip: nat)
    requires IsFileStream(frames, name, size, mtime, skip)
    ensures |frames| > 0 && frames[0] == BeginFile(name, size, mtime, skip)
  {
  }

  /** The exchange as it is carried out. */
  method ResumeUpload(hash: Data -> string, partial: Option<Data>, access: Access, name: string, mtime: int, file: Data)
    returns (skip: nat, frames: seq<Frame>)
    ensures |frames| > 0 && frames[0] == BeginFile(name, |file|, mtime, skip)
    ensures Injective(hash) ==> Received(partial, frames) == file
    ensures Injective(hash) ==> (skip > 0 <==> IsUsable(partial, access, file))
  {
    var ack := ProbeUploadResume(hash, partial, access, false, [ResumeEntry(name, 0, |file|, mtime, "")]);
    skip := ChooseSkip(hash, ack, name, file);
    var ok;
    ok, frames := SendFileFrom(file, name, mtime, skip);
    ProbeIsHonest(hash, partial, access, false, [ResumeEntry(name, 0, |file|, mtime, "")], name);
    if Injective(hash) {
      UploadRebuildsFile(hash, partial, ack, name, mtime, file, frames);
      SkipIff(hash, partial, access, name, mtime, file);
    }
  }
}
