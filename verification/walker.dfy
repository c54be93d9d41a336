/** `process_folder`: the depth-first walk over the archive's folder tree
    that turns each readable message into a row, with its folder path and a
    duplicate flag decided by first-seen signature. */
module Walker {
  import opened Base
  import opened TextCleaning
  import opened Timestamps
  import opened RecipientLists
  import opened Signature

  // ---- the archive, as the reader exposes it --------------------------------

  /** A message: each field read may return a value or raise. */
  datatype Message = Message(
    subject: Read<Option<string>>,
    body: Read<Option<string>>,
    delivery: Read<Option<Stamp>>,
    submitted: Read<Option<Stamp>>,
    recipients: seq<Slot>)

  /** A folder: an optional name, its messages and its sub-folders, in archive order. */
  datatype Folder = Folder(name: Option<string>, messages: seq<Message>, subfolders: seq<Folder>)

  /** The calls into code outside the model: `strptime` on the timestamp
      format, and the MD5 hex digest. */
  datatype Externals = Externals(parse: string -> Option<Instant>, hash: string -> Digest)

  // ---- the output -----------------------------------------------------------

  /** The normalised cells of one message. */
  datatype Record = Record(subject: string, date: Option<string>, time: Option<string>,
                           to: string, cc: string, bcc: string, body: string)

  /** One spreadsheet row: folder path, the record, and the "Is Duplicate" cell. */
  datatype Row = Row(path: string, record: Record, duplicate: bool)

  /** What the walk does with each message: `extract` is the body of the
      `try` (a record, or `None` when a read raises and the message is
      skipped) and `hash` is the digest behind the signature. The walk is
      stated for any such pair; `SourceSteps` is the one the program uses. */
  datatype Steps = Steps(extract: Message -> Option<Record>, hash: string -> Digest)

  /** The rows a walk appends and the signature set after it. */
  datatype Walked = Walked(rows: seq<Row>, seen: set<Digest>)

  // ---- folder paths ---------------------------------------------------------

  const RootName := "Root"
  const PathSeparator := " > "

  /** The folder's name, or "Root" when the name is falsy. */
  function DisplayName(name: Option<string>): (r: string)
    ensures |r| > 0
    ensures !Present(name) ==> r == RootName
    ensures Present(name) ==> r == name.value
  {
    if Present(name) then name.value else RootName
  }

  /** `full_path`: the display name, prefixed by `current_path + " > "` when that is non-empty. */
  function FullPath(parent: string, name: Option<string>): string
  {
    if |parent| > 0 then parent + PathSeparator + DisplayName(name) else DisplayName(name)
  }

  /** A folder's path is the `" > "`-join of the display names from the
      root down to it: one step of `FullPath` extends the join by one name. */
  lemma FullPathIsJoin(trail: seq<string>, name: Option<string>)
    requires forall i :: 0 <= i < |trail| ==> |trail[i]| > 0
    ensures FullPath(Join(trail, PathSeparator), name) == Join(trail + [DisplayName(name)], PathSeparator)
  {
    JoinSnoc(trail, DisplayName(name), PathSeparator);
    if |trail| > 1 {
      assert |Join(trail, PathSeparator)| >= |trail[0]|;
    }
  }

  // ---- one message ----------------------------------------------------------

  /** The message's timestamp: the delivery time, or the submission time
      when the delivery time is falsy (only then is it read). */
  function Timestamp(m: Message): (r: Read<Option<Stamp>>)
    ensures r.Fails? <==> m.delivery.Fails? || (!Truthy(m.delivery.value) && m.submitted.Fails?)
    ensures r.Ok? && Truthy(m.delivery.value) ==> r == m.delivery
    ensures m.delivery.Ok? && !Truthy(m.delivery.value) ==> r == m.submitted
  {
    match m.delivery
    case Fails => Fails
    case Ok(d) => if Truthy(d) then Ok(d) else m.submitted
  }

  /** The body of the `try` in the message loop: `None` when a read raises,
      so that the message is skipped. */
  function ExtractRecord(m: Message, parse: string -> Option<Instant>): (r: Option<Record>)
    ensures r.None? <==> m.subject.Fails? || m.body.Fails? || Timestamp(m).Fails?
    ensures r.Some? ==> AllKept(r.value.subject) && AllKept(r.value.body)
    ensures r.Some? ==> AllKept(r.value.to) && AllKept(r.value.cc) && AllKept(r.value.bcc)
    ensures r.Some? ==> (r.value.date, r.value.time) == FormatDateTime(Timestamp(m).value, parse)
    ensures r.Some? ==> r.value.subject == CleanText(m.subject.value) && r.value.body == CleanText(m.body.value)
    ensures r.Some? ==> var (to, cc, bcc) := Recipients(m.recipients);
                        r.value.to == Clean(to) && r.value.cc == Clean(cc) && r.value.bcc == Clean(bcc)
  {
    if m.subject.Fails? || m.body.Fails? || Timestamp(m).Fails? then None
    else
      var (date, time) := FormatDateTime(Timestamp(m).value, parse);
      var (to, cc, bcc) := Recipients(m.recipients);
      Some(Record(CleanText(m.subject.value), date, time,
                  Clean(to), Clean(cc), Clean(bcc), CleanText(m.body.value)))
  }

  /** The signature of a record: of its subject, date, time and body only. */
  function RecordSignature(rec: Record, hash: string -> Digest): Digest
  {
    Fingerprint(hash, rec.subject, rec.date, rec.time, rec.body)
  }

  function RowSignature(row: Row, hash: string -> Digest): Digest
  {
    RecordSignature(row.record, hash)
  }

  /** The signatures of a sequence of rows. */
  function Sigs(rows: seq<Row>, hash: string -> Digest): set<Digest>
    decreases |rows|
  {
    if |rows| == 0 then {}
    else Sigs(rows[..|rows| - 1], hash) + {RowSignature(rows[|rows| - 1], hash)}
  }

  /** A digest is among the rows' signatures exactly when some row has it. */
  lemma {:induction false} SigsMembership(rows: seq<Row>, hash: string -> Digest, d: Digest)
    ensures d in Sigs(rows, hash) <==> exists i :: 0 <= i < |rows| && RowSignature(rows[i], hash) == d
    decreases |rows|
  {
    if |rows| > 0 {
      var n := |rows| - 1;
      SigsMembership(rows[..n], hash, d);
      if exists i :: 0 <= i < |rows| && RowSignature(rows[i], hash) == d {
        var i :| 0 <= i < |rows| && RowSignature(rows[i], hash) == d;
        if i < n {
          assert rows[..n][i] == rows[i];
        }
      }
    }
  }

  lemma {:induction false} SigsAppend(a: seq<Row>, b: seq<Row>, hash: string -> Digest)
    ensures Sigs(a + b, hash) == Sigs(a, hash) + Sigs(b, hash)
    decreases |b|
  {
    if |b| == 0 {
      assert a + b == a;
    } else {
      var n := |b| - 1;
      assert (a + b)[..|a + b| - 1] == a + b[..n];
      assert (a + b)[|a + b| - 1] == b[n];
      SigsAppend(a, b[..n], hash);
    }
  }

  lemma SigsSingleton(row: Row, hash: string -> Digest)
    ensures Sigs([row], hash) == {RowSignature(row, hash)}
  {
  }

  // ---- the walk -------------------------------------------------------------

  /** The message loop of one folder: rows in message order, each flagged
      by membership of its signature in `seen`, which grows only on the
      "No" branch. */
  function WalkMessages(ms: seq<Message>, path: string, seen: set<Digest>, steps: Steps): (w: Walked)
    ensures seen <= w.seen
    ensures w.seen == seen + Sigs(w.rows, steps.hash)
    ensures |w.rows| <= |ms|
    decreases |ms|
  {
    if |ms| == 0 then Walked([], seen)
    else
      var extracted := steps.extract(ms[0]);
      if extracted.None? then WalkMessages(ms[1..], path, seen, steps)
      else
        var rec := extracted.value;
        var sig := RecordSignature(rec, steps.hash);
        var duplicate := sig in seen;
        var row := Row(path, rec, duplicate);
        var rest := WalkMessages(ms[1..], path, if duplicate then seen else seen + {sig}, steps);
        SigsAppend([row], rest.rows, steps.hash);
        SigsSingleton(row, steps.hash);
        Walked([row] + rest.rows, rest.seen)
  }

  /** `process_folder(folder, rows, current_path, seen, ...)`: the folder's
      own messages, then each sub-folder in turn under this folder's path. */
  function WalkFolder(f: Folder, parent: string, seen: set<Digest>, steps: Steps): (w: Walked)
    ensures seen <= w.seen
    ensures w.seen == seen + Sigs(w.rows, steps.hash)
    ensures |w.rows| <= MessageCount(f)
    decreases f, 1
  {
    var path := FullPath(parent, f.name);
    var own := WalkMessages(f.messages, path, seen, steps);
    var subs := WalkFolders(f.subfolders, path, own.seen, steps);
    SigsAppend(own.rows, subs.rows, steps.hash);
    Walked(own.rows + subs.rows, subs.seen)
  }

  /** The `for sub_folder in folder.sub_folders` loop, threading `seen`. */
  function WalkFolders(fs: seq<Folder>, parent: string, seen: set<Digest>, steps: Steps): (w: Walked)
    ensures seen <= w.seen
    ensures w.seen == seen + Sigs(w.rows, steps.hash)
    ensures |w.rows| <= MessageCountAll(fs)
    decreases fs, 0
  {
    if |fs| == 0 then Walked([], seen)
    else
      var first := WalkFolder(fs[0], parent, seen, steps);
      var rest := WalkFolders(fs[1..], parent, first.seen, steps);
      SigsAppend(first.rows, rest.rows, steps.hash);
      assert fs == [fs[0]] + fs[1..];
      Walked(first.rows + rest.rows, rest.seen)
  }

  function MessageCount(f: Folder): nat
    decreases f, 1
  {
    |f.messages| + MessageCountAll(f.subfolders)
  }

  function MessageCountAll(fs: seq<Folder>): nat
    decreases fs, 0
  {
    if |fs| == 0 then 0 else MessageCount(fs[0]) + MessageCountAll(fs[1..])
  }

  /** The whole extraction: the walk from the root folder with an empty path
      and a fresh signature set. */
  function Extract(root: Folder, ext: Externals): (rows: seq<Row>)
    ensures |rows| <= MessageCount(root)
  {
    WalkFolder(root, "", {}, SourceSteps(ext)).rows
  }

  /** The per-message steps of `process_folder`. */
  function SourceSteps(ext: Externals): Steps
  {
    Steps(m => ExtractRecord(m, ext.parse), ext.hash)
  }
}
