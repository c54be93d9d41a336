/** What the walk promises, stated against definitions that do not thread
    any state: the duplicate flags follow first-seen semantics, the rows
    follow a plain depth-first listing of the tree's messages with the
    failing ones left out, and folder paths nest. */
module WalkProperties {
  import opened Base
  import opened Signature
  import opened Walker

  // ---- first-seen duplicate flags -------------------------------------------

  /** Every row is flagged a duplicate exactly when its signature was in the
      starting set or belongs to an earlier row. */
  ghost predicate FirstSeenFlags(rows: seq<Row>, seen: set<Digest>, hash: string -> Digest)
  {
    forall k :: 0 <= k < |rows| ==> FlagIsFirstSeen(rows, k, seen, hash)
  }

  /** Row `k` is a duplicate exactly when its signature is in `seen` or among the earlier rows'. */
  ghost predicate FlagIsFirstSeen(rows: seq<Row>, k: int, seen: set<Digest>, hash: string -> Digest)
    requires 0 <= k < |rows|
  {
    rows[k].duplicate <==> RowSignature(rows[k], hash) in seen + Sigs(rows[..k], hash)
  }

  lemma {:induction false} FirstSeenFlagsAppend(a: seq<Row>, b: seq<Row>, seen: set<Digest>, hash: string -> Digest)
    requires FirstSeenFlags(a, seen, hash)
    requires FirstSeenFlags(b, seen + Sigs(a, hash), hash)
    ensures FirstSeenFlags(a + b, seen, hash)
  {
    forall k | 0 <= k < |a + b|
      ensures FlagIsFirstSeen(a + b, k, seen, hash)
    {
      if k < |a| {
        assert FlagIsFirstSeen(a, k, seen, hash);
        assert (a + b)[..k] == a[..k];
        assert (a + b)[k] == a[k];
      } else {
        assert FlagIsFirstSeen(b, k - |a|, seen + Sigs(a, hash), hash);
        assert (a + b)[..k] == a + b[..k - |a|];
        assert (a + b)[k] == b[k - |a|];
        SigsAppend(a, b[..k - |a|], hash);
      }
    }
  }

  lemma FirstSeenFlagsPrefix(rows: seq<Row>, n: nat, seen: set<Digest>, hash: string -> Digest)
    requires n <= |rows|
    requires FirstSeenFlags(rows, seen, hash)
    ensures FirstSeenFlags(rows[..n], seen, hash)
  {
    forall k | 0 <= k < n
      ensures FlagIsFirstSeen(rows[..n], k, seen, hash)
    {
      assert FlagIsFirstSeen(rows, k, seen, hash);
      assert rows[..n][..k] == rows[..k];
      assert rows[..n][k] == rows[k];
    }
  }

  /** With first-seen flags, a row is a duplicate exactly when its signature
      was already seen or an earlier row has the same signature. */
  lemma DuplicateIffEarlierTwin(rows: seq<Row>, seen: set<Digest>, hash: string -> Digest, j: int)
    requires FirstSeenFlags(rows, seen, hash)
    requires 0 <= j < |rows|
    ensures rows[j].duplicate <==>
              RowSignature(rows[j], hash) in seen ||
              exists i :: 0 <= i < j && RowSignature(rows[i], hash) == RowSignature(rows[j], hash)
  {
    var s := RowSignature(rows[j], hash);
    assert FlagIsFirstSeen(rows, j, seen, hash);
    SigsMembership(rows[..j], hash, s);
    forall i | 0 <= i < j ensures rows[..j][i] == rows[i] {
    }
  }

  /** Of rows with the same subject, date, time and body, wherever they sit
      and whatever their recipients, every one after the first is a duplicate. */
  lemma LaterSameContentIsDuplicate(rows: seq<Row>, seen: set<Digest>, hash: string -> Digest, i: int, j: int)
    requires FirstSeenFlags(rows, seen, hash)
    requires 0 <= i < j < |rows|
    requires rows[i].record.subject == rows[j].record.subject
    requires rows[i].record.date == rows[j].record.date
    requires rows[i].record.time == rows[j].record.time
    requires rows[i].record.body == rows[j].record.body
    ensures rows[j].duplicate
  {
    DuplicateIffEarlierTwin(rows, seen, hash, j);
  }

  /** The number of rows flagged "No". */
  function Originals(rows: seq<Row>): nat
    decreases |rows|
  {
    if |rows| == 0 then 0
    else Originals(rows[..|rows| - 1]) + (if rows[|rows| - 1].duplicate then 0 else 1)
  }

  /** With first-seen flags each "No" row adds one new signature and each
      "Yes" row none: the rows flagged "No" are as many as the new signatures. */
  lemma {:induction false} OriginalsCountSignatures(rows: seq<Row>, seen: set<Digest>, hash: string -> Digest)
    requires FirstSeenFlags(rows, seen, hash)
    ensures |seen + Sigs(rows, hash)| == |seen| + Originals(rows)
    decreases |rows|
  {
    if |rows| > 0 {
      var n := |rows| - 1;
      var init := rows[..n];
      FirstSeenFlagsPrefix(rows, n, seen, hash);
      OriginalsCountSignatures(init, seen, hash);
      LastRowFlag(rows, seen, hash);
      LastRowCount(rows, seen, hash);
      assert Originals(rows) == Originals(init) + (if rows[n].duplicate then 0 else 1);
    }
  }

  /** The last row adds one signature to the set exactly when it is flagged "No". */
  lemma LastRowCount(rows: seq<Row>, seen: set<Digest>, hash: string -> Digest)
    requires |rows| > 0
    requires rows[|rows| - 1].duplicate <==>
               RowSignature(rows[|rows| - 1], hash) in seen + Sigs(rows[..|rows| - 1], hash)
    ensures |seen + Sigs(rows, hash)|
         == |seen + Sigs(rows[..|rows| - 1], hash)| + (if rows[|rows| - 1].duplicate then 0 else 1)
  {
    var n := |rows| - 1;
    var before, sig := seen + Sigs(rows[..n], hash), RowSignature(rows[n], hash);
    assert seen + Sigs(rows, hash) == before + {sig};
    AddOne(before, sig, rows[n].duplicate);
  }

  /** Adding an element grows a set by one exactly when it was absent. */
  lemma AddOne(before: set<Digest>, sig: Digest, present: bool)
    requires present <==> sig in before
    ensures |before + {sig}| == |before| + (if present then 0 else 1)
  {
    if present {
      assert before + {sig} == before;
    }
  }

  lemma LastRowFlag(rows: seq<Row>, seen: set<Digest>, hash: string -> Digest)
    requires FirstSeenFlags(rows, seen, hash)
    requires |rows| > 0
    ensures rows[|rows| - 1].duplicate <==>
              RowSignature(rows[|rows| - 1], hash) in seen + Sigs(rows[..|rows| - 1], hash)
  {
    assert FlagIsFirstSeen(rows, |rows| - 1, seen, hash);
  }

  // ---- a stateless reference listing of the tree ----------------------------

  /** A message together with the path of the folder holding it. */
  datatype Visit = Visit(path: string, message: Message)

  function MessageVisits(ms: seq<Message>, path: string): (vs: seq<Visit>)
    ensures |vs| == |ms|
    ensures forall i :: 0 <= i < |ms| ==> vs[i] == Visit(path, ms[i])
  {
    seq(|ms|, i requires 0 <= i < |ms| => Visit(path, ms[i]))
  }

  /** Depth-first listing: the folder's own messages, then each sub-folder's listing. */
  function Visits(f: Folder, parent: string): seq<Visit>
    decreases f, 1
  {
    var path := FullPath(parent, f.name);
    MessageVisits(f.messages, path) + VisitsAll(f.subfolders, path)
  }

  function VisitsAll(fs: seq<Folder>, parent: string): seq<Visit>
    decreases fs, 0
  {
    if |fs| == 0 then [] else Visits(fs[0], parent) + VisitsAll(fs[1..], parent)
  }

  /** The listing with every message that fails to read left out and every
      other one turned into its record. */
  function Expected(vs: seq<Visit>, extract: Message -> Option<Record>): seq<(string, Record)>
    decreases |vs|
  {
    if |vs| == 0 then [] else Entry(vs[0], extract) + Expected(vs[1..], extract)
  }

  /** The output of one visit: its path and record, or nothing when the message fails to read. */
  function Entry(v: Visit, extract: Message -> Option<Record>): seq<(string, Record)>
  {
    match extract(v.message)
    case None => []
    case Some(rec) => [(v.path, rec)]
  }

  /** The rows without their duplicate flags. */
  function Strip(rows: seq<Row>): (cells: seq<(string, Record)>)
    ensures |cells| == |rows|
    ensures forall i :: 0 <= i < |rows| ==> cells[i] == (rows[i].path, rows[i].record)
  {
    seq(|rows|, i requires 0 <= i < |rows| => (rows[i].path, rows[i].record))
  }

  lemma StripAppend(a: seq<Row>, b: seq<Row>)
    ensures Strip(a + b) == Strip(a) + Strip(b)
  {
  }

  lemma {:induction false} ExpectedAppend(a: seq<Visit>, b: seq<Visit>, extract: Message -> Option<Record>)
    ensures Expected(a + b, extract) == Expected(a, extract) + Expected(b, extract)
    decreases |a|
  {
    if |a| > 0 {
      assert (a + b)[0] == a[0];
      assert (a + b)[1..] == a[1..] + b;
      assert Expected(a + b, extract) == Entry(a[0], extract) + Expected(a[1..] + b, extract);
      ExpectedAppend(a[1..], b, extract);
    } else {
      assert a + b == b;
    }
  }

  /** A message is in the output exactly when it reads without failure: the
      entries are the records of the readable visits, with their paths. */
  lemma {:induction false} ExpectedMembership(vs: seq<Visit>, extract: Message -> Option<Record>, p: string, rec: Record)
    ensures (p, rec) in Expected(vs, extract) <==>
              exists i :: 0 <= i < |vs| && vs[i].path == p && extract(vs[i].message) == Some(rec)
    decreases |vs|
  {
    if |vs| > 0 {
      ExpectedMembership(vs[1..], extract, p, rec);
      if exists i :: 0 <= i < |vs| && vs[i].path == p && extract(vs[i].message) == Some(rec) {
        var i :| 0 <= i < |vs| && vs[i].path == p && extract(vs[i].message) == Some(rec);
        if i > 0 {
          assert vs[1..][i - 1] == vs[i];
        }
      }
      if (p, rec) in Expected(vs[1..], extract) {
        var i :| 0 <= i < |vs[1..]| && vs[1..][i].path == p && extract(vs[1..][i].message) == Some(rec);
        assert vs[i + 1] == vs[1..][i];
      }
    }
  }

  // ---- the walk against the reference ---------------------------------------

  /** One step of the message loop when the first message fails to read. */
  lemma WalkMessagesSkip(ms: seq<Message>, path: string, seen: set<Digest>, steps: Steps)
    requires |ms| > 0 && steps.extract(ms[0]).None?
    ensures WalkMessages(ms, path, seen, steps) == WalkMessages(ms[1..], path, seen, steps)
  {
  }

  /** One step of the message loop when the first message reads: its row,
      flagged by membership in `seen`, then the rest from the grown set. */
  lemma WalkMessagesTake(ms: seq<Message>, path: string, seen: set<Digest>, steps: Steps)
    requires |ms| > 0 && steps.extract(ms[0]).Some?
    ensures var rec := steps.extract(ms[0]).value;
            var sig := RecordSignature(rec, steps.hash);
            WalkMessages(ms, path, seen, steps).rows
              == [Row(path, rec, sig in seen)]
                 + WalkMessages(ms[1..], path, if sig in seen then seen else seen + {sig}, steps).rows
  {
  }

  lemma ExpectedMessagesCons(ms: seq<Message>, path: string, extract: Message -> Option<Record>)
    requires |ms| > 0
    ensures Expected(MessageVisits(ms, path), extract)
         == Entry(Visit(path, ms[0]), extract) + Expected(MessageVisits(ms[1..], path), extract)
  {
    var vs := MessageVisits(ms, path);
    assert vs[0] == Visit(path, ms[0]);
    assert vs[1..] == MessageVisits(ms[1..], path);
  }

  /** The message loop lists the readable messages, in order, under the folder's path. */
  lemma {:induction false} WalkMessagesStrip(ms: seq<Message>, path: string, seen: set<Digest>, steps: Steps)
    ensures Strip(WalkMessages(ms, path, seen, steps).rows) == Expected(MessageVisits(ms, path), steps.extract)
    decreases |ms|
  {
    if |ms| > 0 {
      ExpectedMessagesCons(ms, path, steps.extract);
      var extracted := steps.extract(ms[0]);
      if extracted.None? {
        WalkMessagesSkip(ms, path, seen, steps);
        WalkMessagesStrip(ms[1..], path, seen, steps);
      } else {
        var sig := RecordSignature(extracted.value, steps.hash);
        var seen' := if sig in seen then seen else seen + {sig};
        var row := Row(path, extracted.value, sig in seen);
        WalkMessagesTake(ms, path, seen, steps);
        WalkMessagesStrip(ms[1..], path, seen', steps);
        StripAppend([row], WalkMessages(ms[1..], path, seen', steps).rows);
      }
    }
  }

  /** The message loop flags its rows first-seen. */
  lemma {:induction false} WalkMessagesFlags(ms: seq<Message>, path: string, seen: set<Digest>, steps: Steps)
    ensures FirstSeenFlags(WalkMessages(ms, path, seen, steps).rows, seen, steps.hash)
    decreases |ms|
  {
    if |ms| > 0 {
      var extracted := steps.extract(ms[0]);
      if extracted.None? {
        WalkMessagesSkip(ms, path, seen, steps);
        WalkMessagesFlags(ms[1..], path, seen, steps);
      } else {
        var sig := RecordSignature(extracted.value, steps.hash);
        var seen' := if sig in seen then seen else seen + {sig};
        var row := Row(path, extracted.value, sig in seen);
        var rest := WalkMessages(ms[1..], path, seen', steps).rows;
        WalkMessagesTake(ms, path, seen, steps);
        WalkMessagesFlags(ms[1..], path, seen', steps);
        ConsRowFlags(WalkMessages(ms, path, seen, steps).rows, row, rest, seen, steps.hash);
      }
    }
  }

  /** A row flagged by membership in `seen`, followed by rows flagged
      first-seen from `seen` plus its signature, is flagged first-seen. */
  lemma ConsRowFlags(rows: seq<Row>, row: Row, rest: seq<Row>, seen: set<Digest>, hash: string -> Digest)
    requires rows == [row] + rest
    requires row.duplicate == (RowSignature(row, hash) in seen)
    requires FirstSeenFlags(rest, if row.duplicate then seen else seen + {RowSignature(row, hash)}, hash)
    ensures FirstSeenFlags(rows, seen, hash)
  {
    SigsSingleton(row, hash);
    assert [row][..0] == [];
    assert FlagIsFirstSeen([row], 0, seen, hash);
    FirstSeenFlagsAppend([row], rest, seen, hash);
  }

  /** The walk of a folder lists exactly the readable messages of its
      subtree, depth-first with each folder's own messages first, under
      their folders' paths. */
  lemma {:induction false} WalkFolderListing(f: Folder, parent: string, seen: set<Digest>, steps: Steps)
    ensures Strip(WalkFolder(f, parent, seen, steps).rows) == Expected(Visits(f, parent), steps.extract)
    decreases f, 1
  {
    var path := FullPath(parent, f.name);
    var own := WalkMessages(f.messages, path, seen, steps);
    var subs := WalkFolders(f.subfolders, path, own.seen, steps);
    WalkMessagesStrip(f.messages, path, seen, steps);
    WalkFoldersListing(f.subfolders, path, own.seen, steps);
    StripAppend(own.rows, subs.rows);
    ExpectedAppend(MessageVisits(f.messages, path), VisitsAll(f.subfolders, path), steps.extract);
  }

  lemma {:induction false} WalkFoldersListing(fs: seq<Folder>, parent: string, seen: set<Digest>, steps: Steps)
    ensures Strip(WalkFolders(fs, parent, seen, steps).rows) == Expected(VisitsAll(fs, parent), steps.extract)
    decreases fs, 0
  {
    if |fs| > 0 {
      var first := WalkFolder(fs[0], parent, seen, steps);
      var rest := WalkFolders(fs[1..], parent, first.seen, steps);
      WalkFolderListing(fs[0], parent, seen, steps);
      WalkFoldersListing(fs[1..], parent, first.seen, steps);
      StripAppend(first.rows, rest.rows);
      ExpectedAppend(Visits(fs[0], parent), VisitsAll(fs[1..], parent), steps.extract);
    }
  }

  /** The walk of a folder flags its rows first-seen relative to the incoming set. */
  lemma {:induction false} WalkFolderFlags(f: Folder, parent: string, seen: set<Digest>, steps: Steps)
    ensures FirstSeenFlags(WalkFolder(f, parent, seen, steps).rows, seen, steps.hash)
    decreases f, 1
  {
    var path := FullPath(parent, f.name);
    var own := WalkMessages(f.messages, path, seen, steps);
    var subs := WalkFolders(f.subfolders, path, own.seen, steps);
    WalkMessagesFlags(f.messages, path, seen, steps);
    WalkFoldersFlags(f.subfolders, path, own.seen, steps);
    FirstSeenFlagsAppend(own.rows, subs.rows, seen, steps.hash);
  }

  lemma {:induction false} WalkFoldersFlags(fs: seq<Folder>, parent: string, seen: set<Digest>, steps: Steps)
    ensures FirstSeenFlags(WalkFolders(fs, parent, seen, steps).rows, seen, steps.hash)
    decreases fs, 0
  {
    if |fs| > 0 {
      var first := WalkFolder(fs[0], parent, seen, steps);
      var rest := WalkFolders(fs[1..], parent, first.seen, steps);
      WalkFolderFlags(fs[0], parent, seen, steps);
      WalkFoldersFlags(fs[1..], parent, first.seen, steps);
      FirstSeenFlagsAppend(first.rows, rest.rows, seen, steps.hash);
    }
  }

  /** The whole extraction lists the readable messages of the archive in
      depth-first order, each under its folder's path. */
  lemma {:induction false} ExtractListing(root: Folder, ext: Externals)
    ensures Strip(Extract(root, ext)) == Expected(Visits(root, ""), SourceSteps(ext).extract)
  {
    WalkFolderListing(root, "", {}, SourceSteps(ext));
  }

  /** The whole extraction flags a row "Yes" exactly when an earlier row has
      the same signature. */
  lemma {:induction false} ExtractFlags(root: Folder, ext: Externals)
    ensures FirstSeenFlags(Extract(root, ext), {}, ext.hash)
  {
    WalkFolderFlags(root, "", {}, SourceSteps(ext));
  }

  /** The rows flagged "No" are as many as the distinct signatures. */
  lemma {:induction false} ExtractOriginals(root: Folder, ext: Externals)
    ensures |Sigs(Extract(root, ext), ext.hash)| == Originals(Extract(root, ext))
  {
    ExtractFlags(root, ext);
    OriginalsCountSignatures(Extract(root, ext), {}, ext.hash);
  }

  // ---- folder paths nest ----------------------------------------------------

  predicate IsPrefix(p: string, s: string)
  {
    |p| <= |s| && s[..|p|] == p
  }

  /** `path` is the folder path `top` itself or lies below it. */
  predicate Under(path: string, top: string)
  {
    path == top || IsPrefix(top + PathSeparator, path)
  }

  /** Every message of a folder's subtree is listed under that folder's path. */
  lemma {:induction false} VisitsUnder(f: Folder, parent: string)
    ensures forall v :: v in Visits(f, parent) ==> Under(v.path, FullPath(parent, f.name))
    decreases f, 1
  {
    var path := FullPath(parent, f.name);
    VisitsAllUnder(f.subfolders, path);
    forall v | v in Visits(f, parent) ensures Under(v.path, path) {
      if v in MessageVisits(f.messages, path) {
        var i :| 0 <= i < |f.messages| && MessageVisits(f.messages, path)[i] == v;
      }
    }
  }

  lemma {:induction false} VisitsAllUnder(fs: seq<Folder>, parent: string)
    ensures |parent| > 0 ==> forall v :: v in VisitsAll(fs, parent) ==> IsPrefix(parent + PathSeparator, v.path)
    decreases fs, 0
  {
    if |fs| > 0 && |parent| > 0 {
      var top := parent + PathSeparator;
      VisitsUnder(fs[0], parent);
      VisitsAllUnder(fs[1..], parent);
      var child := FullPath(parent, fs[0].name);
      assert child == top + DisplayName(fs[0].name);
      forall v | v in Visits(fs[0], parent) ensures IsPrefix(top, v.path) {
        assert Under(v.path, child);
        if v.path == child {
          assert child[..|top|] == top;
        } else {
          assert v.path[..|child + PathSeparator|] == child + PathSeparator;
          assert (child + PathSeparator)[..|top|] == top;
          assert v.path[..|top|] == (v.path[..|child + PathSeparator|])[..|top|];
        }
      }
    }
  }

  /** Every row of a folder's walk carries that folder's path or one below it. */
  lemma WalkPathsUnder(f: Folder, parent: string, seen: set<Digest>, steps: Steps)
    ensures forall row :: row in WalkFolder(f, parent, seen, steps).rows ==>
              Under(row.path, FullPath(parent, f.name))
  {
    var rows := WalkFolder(f, parent, seen, steps).rows;
    var vs := Visits(f, parent);
    WalkFolderListing(f, parent, seen, steps);
    VisitsUnder(f, parent);
    forall row | row in rows ensures Under(row.path, FullPath(parent, f.name)) {
      var k :| 0 <= k < |rows| && rows[k] == row;
      assert Strip(rows)[k] == (row.path, row.record);
      assert (row.path, row.record) in Expected(vs, steps.extract);
      ExpectedMembership(vs, steps.extract, row.path, row.record);
      var i :| 0 <= i < |vs| && vs[i].path == row.path && steps.extract(vs[i].message) == Some(row.record);
      assert vs[i] in vs;
    }
  }

  // ---- a worked case --------------------------------------------------------

  lemma ExamplePaths()
    ensures FullPath("", None) == "Root"
    ensures FullPath("Root", Some("Inbox")) == "Root > Inbox"
    ensures FullPath("Root > Inbox", Some("Sub")) == "Root > Inbox > Sub"
  {
  }

  /** Two messages that differ at most in their recipients get the same
      signature: recipients and folder play no part in duplicate detection. */
  lemma SignatureIgnoresRecipients(m: Message, copy: Message, ext: Externals)
    requires m.subject.Ok? && m.body.Ok? && Timestamp(m).Ok?
    requires copy.subject == m.subject && copy.body == m.body
    requires copy.delivery == m.delivery && copy.submitted == m.submitted
    ensures ExtractRecord(copy, ext.parse).Some?
    ensures RecordSignature(ExtractRecord(copy, ext.parse).value, ext.hash)
         == RecordSignature(ExtractRecord(m, ext.parse).value, ext.hash)
  {
  }

  /** The walk of the tree `root > Inbox > Sub` holding one message in
      "Inbox" and one in "Sub" with the same signature. */
  lemma TwoLevelWalk(m: Message, copy: Message, steps: Steps)
    requires steps.extract(m).Some? && steps.extract(copy).Some?
    requires RecordSignature(steps.extract(copy).value, steps.hash)
          == RecordSignature(steps.extract(m).value, steps.hash)
    ensures var rows := WalkFolder(Folder(None, [], [Folder(Some("Inbox"), [m], [Folder(Some("Sub"), [copy], [])])]),
                                   "", {}, steps).rows;
            && |rows| == 2
            && rows[0].path == "Root > Inbox" && !rows[0].duplicate
            && rows[1].path == "Root > Inbox > Sub" && rows[1].duplicate
  {
    var sub := Folder(Some("Sub"), [copy], []);
    var inbox := Folder(Some("Inbox"), [m], [sub]);
    var root := Folder(None, [], [inbox]);
    var rec, rec' := steps.extract(m).value, steps.extract(copy).value;
    var sig := RecordSignature(rec, steps.hash);
    ExamplePaths();
    var w1 := WalkMessages([m], "Root > Inbox", {}, steps);
    assert w1.rows == [Row("Root > Inbox", rec, false)] && w1.seen == {sig};
    var w2 := WalkMessages([copy], "Root > Inbox > Sub", {sig}, steps);
    assert w2.rows == [Row("Root > Inbox > Sub", rec', true)];
    assert WalkFolder(sub, "Root > Inbox", {sig}, steps).rows == w2.rows;
    assert WalkFolders([sub], "Root > Inbox", {sig}, steps).rows == w2.rows;
    assert WalkFolder(inbox, "Root", {}, steps).rows == w1.rows + w2.rows;
    assert WalkFolders([inbox], "Root", {}, steps).rows == w1.rows + w2.rows;
    assert WalkMessages([], "Root", {}, steps).rows == [];
  }

  /** An unnamed root holding "Inbox" with a message, and "Inbox" holding
      "Sub" with a copy of it that differs at most in recipients: two rows,
      at "Root > Inbox" flagged "No" and at "Root > Inbox > Sub" flagged "Yes". */
  lemma CopyInSubfolderIsDuplicate(m: Message, copy: Message, ext: Externals)
    requires m.subject.Ok? && m.body.Ok? && Timestamp(m).Ok?
    requires copy.subject == m.subject && copy.body == m.body
    requires copy.delivery == m.delivery && copy.submitted == m.submitted
    ensures var rows := Extract(Folder(None, [], [Folder(Some("Inbox"), [m], [Folder(Some("Sub"), [copy], [])])]), ext);
            && |rows| == 2
            && rows[0].path == "Root > Inbox" && !rows[0].duplicate
            && rows[1].path == "Root > Inbox > Sub" && rows[1].duplicate
  {
    SignatureIgnoresRecipients(m, copy, ext);
    TwoLevelWalk(m, copy, SourceSteps(ext));
  }
}
