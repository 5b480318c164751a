/** The batch loop of `Regenerator::run`. Every WordPress call the loop makes
    is replaced by what the loop observes of it: whether `get_attached_file`
    resolved a path, whether `file_exists` found it, and what
    `wp_generate_attachment_metadata` returned. The run is a fold over the
    attachments in the order the database query returns them. */
module Regenerator {
  import opened Wrappers
  import Decimal

  // ---------------------------------------------------------------------
  // What the loop observes of one attachment
  // ---------------------------------------------------------------------

  /** `get_attached_file` either fails (`false`) or gives a path, which
      `file_exists` then finds or not. */
  datatype Location = Unresolved | Resolved(path: string, found: bool)

  /** One generated size of an image. */
  datatype Size = Size(file: string, width: nat, height: nat)

  /** The attachment metadata built by the generator. */
  datatype Metadata = Metadata(file: string, width: nat, height: nat, sizes: map<string, Size>)

  /** What `wp_generate_attachment_metadata` returns: something PHP's
      `empty()` accepts, a `WP_Error` carrying a message, or metadata. */
  datatype Generated = Empty | WpError(message: string) | Built(metadata: Metadata)

  /** One row of the attachment query with everything the loop learns
      about it. */
  datatype Image = Image(id: nat, location: Location, generated: Generated)

  /** Why an attachment was skipped. */
  datatype Failure = FileMissing | MetadataEmpty | MetadataRejected(message: string)

  predicate Located(l: Location) {
    l.Resolved? && l.found
  }

  /** The checks of the loop body in source order. Each later check only
      applies while `$skip` is still false, so the first failing one wins:
      a missing file beats everything, then empty metadata, then a
      `WP_Error`; an item is clean exactly when its file exists and
      metadata was built. */
  function Check(im: Image): (r: Option<Failure>)
    ensures r == Some(FileMissing) <==> !Located(im.location)
    ensures r == Some(MetadataEmpty) <==> Located(im.location) && im.generated.Empty?
    ensures (r.Some? && r.value.MetadataRejected?) <==> Located(im.location) && im.generated.WpError?
    ensures Located(im.location) && im.generated.WpError? ==> r == Some(MetadataRejected(im.generated.message))
    ensures r == None <==> Located(im.location) && im.generated.Built?
  {
    var afterFile := if !Located(im.location) then Some(FileMissing) else None;
    var afterEmpty := if afterFile.None? && im.generated.Empty? then Some(MetadataEmpty) else afterFile;
    if afterEmpty.None? && im.generated.WpError? then Some(MetadataRejected(im.generated.message))
    else afterEmpty
  }

  // ---------------------------------------------------------------------
  // Error messages
  // ---------------------------------------------------------------------

  const FileMissingPrefix: string := "Error: file does not exists for ID "
  const MetadataPrefix: string := "Error: metadata error for ID "

  /** The string appended to `$errors` for a skipped attachment. */
  function Message(id: nat, f: Failure): string {
    match f
    case FileMissing => FileMissingPrefix + Decimal.FromNat(id)
    case MetadataEmpty => MetadataPrefix + Decimal.FromNat(id)
    case MetadataRejected(m) => MetadataPrefix + Decimal.FromNat(id) + ": \"" + m + "\""
  }

  /** `e` with the prefix `p` removed, if it starts with `p`. */
  function StripPrefix(p: string, e: string): (r: Option<string>)
    ensures r.Some? ==> p + r.value == e
    ensures r.None? ==> !(p <= e)
  {
    if p <= e then
      assert e == e[..|p|] + e[|p|..];
      Some(e[|p|..])
    else None
  }

  lemma StripPrefixConcat(p: string, x: string)
    ensures StripPrefix(p, p + x) == Some(x)
  {
    assert (p + x)[..|p|] == p;
  }

  /** Reads an error message back into the attachment ID and the failure. */
  function ParseMessage(e: string): Option<(nat, Failure)> {
    match StripPrefix(FileMissingPrefix, e)
    case Some(rest) =>
      if |rest| > 0 && Decimal.AllDigits(rest) then Some((Decimal.Value(rest), FileMissing)) else None
    case None =>
      match StripPrefix(MetadataPrefix, e)
      case Some(rest) => ParseMetadataRest(rest)
      case None => None
  }

  /** What follows "Error: metadata error for ID ": the ID, then nothing or
      the quoted `WP_Error` message. */
  function ParseMetadataRest(rest: string): Option<(nat, Failure)> {
    var k := Decimal.DigitRun(rest);
    if k == 0 then None
    else
      var id := Decimal.Value(rest[..k]);
      var tail := rest[k..];
      if tail == [] then Some((id, MetadataEmpty))
      else if |tail| >= 4 && tail[..3] == ": \"" && tail[|tail| - 1] == '"' then
        Some((id, MetadataRejected(tail[3..|tail| - 1])))
      else None
  }

  /** Every error message names its attachment and its failure, and the
      `WP_Error` message is carried verbatim between the quotes: reading a
      message back recovers both. */
  lemma ParseMessageRoundTrip(id: nat, f: Failure)
    ensures ParseMessage(Message(id, f)) == Some((id, f))
  {
    var d := Decimal.FromNat(id);
    Decimal.ValueFromNat(id);
    match f
    case FileMissing =>
      StripPrefixConcat(FileMissingPrefix, d);
    case MetadataEmpty =>
      var e := MetadataPrefix + d;
      assert StripPrefix(MetadataPrefix, e) == Some(d) by {
        StripPrefixConcat(MetadataPrefix, d);
      }
      NotFileMissing(e);
      assert ParseMetadataRest(d) == Some((id, MetadataEmpty)) by {
        assert d == d + [];
        Decimal.DigitRunFromNat(id, []);
      }
    case MetadataRejected(m) =>
      var tail := ": \"" + m + "\"";
      var e := MetadataPrefix + (d + tail);
      assert Message(id, f) == e;
      assert StripPrefix(MetadataPrefix, e) == Some(d + tail) by {
        StripPrefixConcat(MetadataPrefix, d + tail);
      }
      NotFileMissing(e);
      assert ParseMetadataRest(d + tail) == Some((id, MetadataRejected(m))) by {
        Decimal.DigitRunFromNat(id, tail);
        ParseTail(d, tail, m);
      }
  }

  /** A metadata message never passes for a missing-file message. */
  lemma NotFileMissing(e: string)
    requires MetadataPrefix <= e
    ensures StripPrefix(FileMissingPrefix, e) == None
  {
    assert e[7] == MetadataPrefix[7] == 'm';
    assert FileMissingPrefix[7] == 'f';
  }

  /** The pieces `ParseMessage` cuts out of a rejected-metadata message. */
  lemma ParseTail(d: string, tail: string, m: string)
    requires tail == ": \"" + m + "\""
    ensures (d + tail)[..|d|] == d && (d + tail)[|d|..] == tail
    ensures |tail| >= 4 && tail[..3] == ": \"" && tail[|tail| - 1] == '"'
    ensures tail[3..|tail| - 1] == m
  {
  }

  /** Different attachments or different failures never share a message. */
  lemma MessageInjective(a: nat, f: Failure, b: nat, g: Failure)
    ensures Message(a, f) == Message(b, g) ==> a == b && f == g
  {
    ParseMessageRoundTrip(a, f);
    ParseMessageRoundTrip(b, g);
  }

  // ---------------------------------------------------------------------
  // The loop
  // ---------------------------------------------------------------------

  /** The arguments of one `wp_generate_attachment_metadata` call; the path
      is `None` where PHP passes `false`. */
  datatype Call = Call(id: nat, path: Option<string>)

  /** One `wp_update_attachment_metadata` call. */
  datatype Update = Update(id: nat, metadata: Metadata)

  /** `$count`: never assigned before the loop, so it starts as `null`,
      and PHP's `null++` gives 1. */
  datatype Counter = Unset | Count(n: nat)

  function Increment(c: Counter): Counter {
    match c
    case Unset => Count(1)
    case Count(n) => Count(n + 1)
  }

  /** Everything the loop leaves behind: the returned `$errors`, the
      generator and update calls it made, the counts handed to
      `printProgress`, and `$count`. */
  datatype Trace = Trace(
    errors: seq<string>,
    calls: seq<Call>,
    updates: seq<Update>,
    progress: seq<nat>,
    count: Counter)

  const Start: Trace := Trace([], [], [], [], Unset)

  /** The progress reports so far are 1, 2, ..., and `$count` holds the
      last of them. */
  predicate Counted(t: Trace) {
    && (forall i :: 0 <= i < |t.progress| ==> t.progress[i] == i + 1)
    && t.count == (if |t.progress| == 0 then Unset else Count(|t.progress|))
  }

  function PathArgument(l: Location): Option<string> {
    match l
    case Unresolved => None
    case Resolved(p, _) => Some(p)
  }

  /** The generator call made for an attachment, whatever the file check
      found. */
  function CallOf(im: Image): Call {
    Call(im.id, PathArgument(im.location))
  }

  /** The entry an attachment adds to `$errors`, if any. */
  function ErrorOf(im: Image): seq<string> {
    match Check(im)
    case Some(f) => [Message(im.id, f)]
    case None => []
  }

  /** The update call an attachment causes, if any. */
  function UpdateOf(im: Image): seq<Update> {
    match im.generated
    case Built(m) => if Check(im).None? then [Update(im.id, m)] else []
    case _ => []
  }

  /** An attachment either records exactly one error or is persisted
      exactly once, never both and never neither. */
  lemma ErrorOrUpdate(im: Image)
    ensures |ErrorOf(im)| + |UpdateOf(im)| == 1
    ensures |ErrorOf(im)| == 1 <==> Check(im).Some?
    ensures |UpdateOf(im)| == 1 <==> Check(im).None?
  {
  }

  /** One iteration of the `foreach`. */
  function Step(t: Trace, im: Image): Trace {
    var count := Increment(t.count);
    Trace(t.errors + ErrorOf(im), t.calls + [CallOf(im)], t.updates + UpdateOf(im), t.progress + [count.n], count)
  }

  /** The remaining iterations of the loop from state `t`. */
  function Replay(t: Trace, items: seq<Image>): (r: Trace)
    ensures |r.calls| == |t.calls| + |items|
    ensures |r.errors| + |r.updates| == |t.errors| + |t.updates| + |items|
    ensures |r.progress| == |t.progress| + |items|
    ensures Counted(t) ==> Counted(r)
    decreases |items|
  {
    if |items| == 0 then t
    else
      ErrorOrUpdate(items[0]);
      Replay(Step(t, items[0]), items[1..])
  }

  /** `Regenerator::run()` over the attachments the query returned: every
      attachment adds either one error or one update, progress is
      reported as 1, 2, ..., n and `$count` ends at n. */
  function Run(items: seq<Image>): (r: Trace)
    ensures |r.calls| == |items|
    ensures |r.errors| + |r.updates| == |items|
    ensures |r.progress| == |items|
    ensures forall i :: 0 <= i < |items| ==> r.progress[i] == i + 1
    ensures r.count == (if |items| == 0 then Unset else Count(|items|))
  {
    Replay(Start, items)
  }

  // ---------------------------------------------------------------------
  // Reference definitions: the attachments' contributions one after another
  // ---------------------------------------------------------------------

  function AllErrors(items: seq<Image>): seq<string> {
    if |items| == 0 then [] else ErrorOf(items[0]) + AllErrors(items[1..])
  }

  function AllUpdates(items: seq<Image>): seq<Update> {
    if |items| == 0 then [] else UpdateOf(items[0]) + AllUpdates(items[1..])
  }

  function AllCalls(items: seq<Image>): (r: seq<Call>)
    ensures |r| == |items|
    ensures forall i :: 0 <= i < |items| ==> r[i] == CallOf(items[i])
  {
    if |items| == 0 then [] else [CallOf(items[0])] + AllCalls(items[1..])
  }

  // ---------------------------------------------------------------------
  // Properties of the run
  // ---------------------------------------------------------------------

  /** The loop never stops early: after any prefix, the rest of the
      attachments are processed from wherever the prefix left off. */
  lemma {:induction false} ReplayAppend(t: Trace, a: seq<Image>, b: seq<Image>)
    ensures Replay(t, a + b) == Replay(Replay(t, a), b)
    decreases |a|
  {
    if |a| > 0 {
      assert (a + b)[0] == a[0];
      assert (a + b)[1..] == a[1..] + b;
      ReplayAppend(Step(t, a[0]), a[1..], b);
    } else {
      assert a + b == b;
    }
  }

  /** The loop appends each attachment's error in turn, whatever state it
      starts from. */
  lemma {:induction false} ReplayErrors(t: Trace, items: seq<Image>)
    ensures Replay(t, items).errors == t.errors + AllErrors(items)
    decreases |items|
  {
    if |items| > 0 {
      var im := items[0];
      var s := Step(t, im);
      ReplayErrors(s, items[1..]);
      assert Replay(t, items) == Replay(s, items[1..]);
      assert s.errors == t.errors + ErrorOf(im);
      assert AllErrors(items) == ErrorOf(im) + AllErrors(items[1..]);
    }
  }

  /** The loop appends each attachment's update in turn. */
  lemma {:induction false} ReplayUpdates(t: Trace, items: seq<Image>)
    ensures Replay(t, items).updates == t.updates + AllUpdates(items)
    decreases |items|
  {
    if |items| > 0 {
      var im := items[0];
      var s := Step(t, im);
      ReplayUpdates(s, items[1..]);
      assert Replay(t, items) == Replay(s, items[1..]);
      assert s.updates == t.updates + UpdateOf(im);
      assert AllUpdates(items) == UpdateOf(im) + AllUpdates(items[1..]);
    }
  }

  /** The loop calls the generator once per attachment, in order. */
  lemma {:induction false} ReplayCalls(t: Trace, items: seq<Image>)
    ensures Replay(t, items).calls == t.calls + AllCalls(items)
    decreases |items|
  {
    if |items| > 0 {
      var im := items[0];
      var s := Step(t, im);
      ReplayCalls(s, items[1..]);
      assert Replay(t, items) == Replay(s, items[1..]);
      assert s.calls == t.calls + [CallOf(im)];
      assert AllCalls(items) == [CallOf(im)] + AllCalls(items[1..]);
    }
  }

  lemma ReplayOutputs(t: Trace, items: seq<Image>)
    ensures Replay(t, items).errors == t.errors + AllErrors(items)
    ensures Replay(t, items).updates == t.updates + AllUpdates(items)
    ensures Replay(t, items).calls == t.calls + AllCalls(items)
  {
    ReplayErrors(t, items);
    ReplayUpdates(t, items);
    ReplayCalls(t, items);
  }

  /** The run's error list, updates and generator calls are those of the
      attachments taken one by one, in attachment order; in particular the
      generator is called once for every attachment, failed or not. */
  lemma RunOutputs(items: seq<Image>)
    ensures Run(items).errors == AllErrors(items)
    ensures Run(items).updates == AllUpdates(items)
    ensures Run(items).calls == AllCalls(items)
  {
    ReplayOutputs(Start, items);
  }

  /** The generator is called for every attachment, even after its file
      check failed, with the resolved path or `false`. */
  lemma GeneratorAlwaysCalled(items: seq<Image>, i: nat)
    requires i < |items|
    ensures |Run(items).calls| == |items|
    ensures Run(items).calls[i] == Call(items[i].id, PathArgument(items[i].location))
  {
    RunOutputs(items);
  }

  /** Each attachment is judged on its own: running two batches back to
      back gives the concatenation of their errors, calls and updates. */
  lemma RunAppend(a: seq<Image>, b: seq<Image>)
    ensures Run(a + b).errors == Run(a).errors + Run(b).errors
    ensures Run(a + b).updates == Run(a).updates + Run(b).updates
    ensures Run(a + b).calls == Run(a).calls + Run(b).calls
  {
    ReplayAppend(Start, a, b);
    ReplayOutputs(Run(a), b);
    RunOutputs(b);
  }

  /** One attachment yields exactly one error, the one its first failing
      check names, or else exactly one update with the metadata the
      generator built. */
  lemma RunSingle(im: Image)
    ensures Check(im).Some? ==> Run([im]).errors == [Message(im.id, Check(im).value)] && Run([im]).updates == []
    ensures Check(im).None? ==> Run([im]).errors == [] && Run([im]).updates == [Update(im.id, im.generated.metadata)]
  {
    RunOutputs([im]);
    assert [im][1..] == [];
  }

  /** Which messages a run records: one per failed attachment. */
  lemma {:induction false} ErrorMembers(items: seq<Image>, e: string)
    ensures e in AllErrors(items) <==>
      exists j :: 0 <= j < |items| && Check(items[j]).Some? && e == Message(items[j].id, Check(items[j]).value)
    decreases |items|
  {
    if |items| > 0 {
      ErrorMembers(items[1..], e);
      if exists j :: 0 <= j < |items| && Check(items[j]).Some? && e == Message(items[j].id, Check(items[j]).value) {
        var j :| 0 <= j < |items| && Check(items[j]).Some? && e == Message(items[j].id, Check(items[j]).value);
        if j > 0 {
          assert items[1..][j - 1] == items[j];
        }
      }
      if e in AllErrors(items[1..]) {
        var j :| 0 <= j < |items[1..]| && Check(items[1..][j]).Some? && e == Message(items[1..][j].id, Check(items[1..][j]).value);
        assert items[1..][j] == items[j + 1];
      }
    }
  }

  /** Which updates a run makes: one per clean attachment. */
  lemma {:induction false} UpdateMembers(items: seq<Image>, u: Update)
    ensures u in AllUpdates(items) <==>
      exists j :: 0 <= j < |items| && Check(items[j]).None? && u == Update(items[j].id, items[j].generated.metadata)
    decreases |items|
  {
    if |items| > 0 {
      UpdateMembers(items[1..], u);
      if exists j :: 0 <= j < |items| && Check(items[j]).None? && u == Update(items[j].id, items[j].generated.metadata) {
        var j :| 0 <= j < |items| && Check(items[j]).None? && u == Update(items[j].id, items[j].generated.metadata);
        if j > 0 {
          assert items[1..][j - 1] == items[j];
        }
      }
      if u in AllUpdates(items[1..]) {
        var j :| 0 <= j < |items[1..]| && Check(items[1..][j]).None? && u == Update(items[1..][j].id, items[1..][j].generated.metadata);
        assert items[1..][j] == items[j + 1];
      }
    }
  }

  /** Attachment IDs come from the primary key, so no two rows share one. */
  predicate DistinctIds(items: seq<Image>) {
    forall i, j :: 0 <= i < j < |items| ==> items[i].id != items[j].id
  }

  /** Every update belongs to a clean attachment and carries the metadata
      the generator built for it. */
  lemma PersistedOnlyIfClean(items: seq<Image>, i: nat, u: Update)
    requires DistinctIds(items)
    requires i < |items|
    requires u in Run(items).updates && u.id == items[i].id
    ensures Check(items[i]).None? && items[i].generated == Built(u.metadata)
  {
    assert u in AllUpdates(items) by {
      RunOutputs(items);
    }
    UpdateMembers(items, u);
    var j :| 0 <= j < |items| && Check(items[j]).None? && u == Update(items[j].id, items[j].generated.metadata);
    assert j == i;
  }

  /** Every clean attachment is persisted. */
  lemma CleanIsPersisted(items: seq<Image>, i: nat)
    requires i < |items|
    requires Check(items[i]).None?
    ensures Update(items[i].id, items[i].generated.metadata) in Run(items).updates
  {
    var u := Update(items[i].id, items[i].generated.metadata);
    UpdateMembers(items, u);
    RunOutputs(items);
  }

  /** An error message names attachment `id`: it reads back to that ID. */
  predicate Names(e: string, id: nat) {
    ParseMessage(e).Some? && ParseMessage(e).value.0 == id
  }

  /** An error naming an attachment is recorded exactly when one of its
      checks fails, and every such error is the message of its first
      failing check. */
  lemma ErrorIffFailed(items: seq<Image>, i: nat)
    requires DistinctIds(items)
    requires i < |items|
    ensures Check(items[i]).Some? <==> (exists e :: e in Run(items).errors && Names(e, items[i].id))
    ensures Check(items[i]).Some? ==> Message(items[i].id, Check(items[i]).value) in Run(items).errors
    ensures forall e :: e in Run(items).errors && Names(e, items[i].id) ==>
      Check(items[i]).Some? && e == Message(items[i].id, Check(items[i]).value)
  {
    RunOutputs(items);
    var id := items[i].id;
    forall e | e in Run(items).errors && Names(e, id)
      ensures Check(items[i]).Some? && e == Message(id, Check(items[i]).value)
    {
      ErrorMembers(items, e);
      var j :| 0 <= j < |items| && Check(items[j]).Some? && e == Message(items[j].id, Check(items[j]).value);
      ParseMessageRoundTrip(items[j].id, Check(items[j]).value);
      assert j == i;
    }
    if Check(items[i]).Some? {
      var e := Message(id, Check(items[i]).value);
      ErrorMembers(items, e);
      assert e in Run(items).errors;
      ParseMessageRoundTrip(id, Check(items[i]).value);
    }
  }

  /** Metadata is written for an attachment exactly when its checks pass,
      which is exactly when no error naming it was recorded, and what is
      written is what the generator built. */
  lemma PersistIffClean(items: seq<Image>, i: nat)
    requires DistinctIds(items)
    requires i < |items|
    ensures Check(items[i]).None? <==> (exists u :: u in Run(items).updates && u.id == items[i].id)
    ensures (exists u :: u in Run(items).updates && u.id == items[i].id)
            <==> !(exists e :: e in Run(items).errors && Names(e, items[i].id))
    ensures forall u :: u in Run(items).updates && u.id == items[i].id ==> items[i].generated == Built(u.metadata)
  {
    ErrorIffFailed(items, i);
    forall u | u in Run(items).updates && u.id == items[i].id
      ensures Check(items[i]).None? && items[i].generated == Built(u.metadata)
    {
      PersistedOnlyIfClean(items, i, u);
    }
    if Check(items[i]).None? {
      CleanIsPersisted(items, i);
    }
  }
}
