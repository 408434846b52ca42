/** The folder of documents as values (storage/disk_storage.go): what a save
    writes and prunes, what a restore reads, and what decoding brings back. */
module Documents {
  import opened Order
  import opened Copies
  import TopNames
  import Ring

  /** What decoding a document gives: a trace, or nothing. */
  datatype Document = Readable(trace: View) | Garbled

  /** What a trace is once it was encoded and decoded again: whether the trace
      finished and its spans ended, and its state times, are not written. */
  function Decoded(v: View): (d: View)
    ensures d.info.id == v.info.id
  {
    v.(info := v.info.(finished := false, changedAt := 0, stateTime := []),
       spans := seq(|v.spans|, i requires 0 <= i < |v.spans| => v.spans[i].(span := v.spans[i].span.(ended := false))))
  }

  const SUFFIX := ".json"

  function Name(id: string): string {
    id + SUFFIX
  }

  lemma {:induction false} NameOrder(a: string, b: string)
    requires |a| == |b|
    ensures Less(Name(a), Name(b)) <==> Less(a, b)
  {
    if a == [] {
      assert Name(a) == SUFFIX == Name(b);
      LessIrreflexive(SUFFIX);
    } else {
      assert Name(a)[1..] == Name(a[1..]) && Name(b)[1..] == Name(b[1..]);
      NameOrder(a[1..], b[1..]);
    }
  }

  /** What prune leaves of a folder. */
  function Pruned(docs: map<string, Document>, limit: int): map<string, Document> {
    if limit <= 0 then docs else map n | n in docs && n in TopNames.Top(limit, docs.Keys) :: docs[n]
  }

  function Written(docs: map<string, Document>, limit: int, trace: View): map<string, Document> {
    Pruned(docs[Name(trace.info.id) := Readable(Decoded(trace))], limit)
  }

  /** The names Restore reads, oldest first. */
  ghost function Newest(docs: map<string, Document>, limit: int): (names: seq<string>)
    ensures forall i :: 0 <= i < |names| ==> names[i] in docs
  {
    var names := Sorted(docs.Keys);
    assert forall i :: 0 <= i < |names| ==> names[i] in names;
    if limit > 0 then Ring.LastOf(names, limit) else names
  }

  lemma NewestOfListing(docs: map<string, Document>, limit: int)
    ensures var names := Sorted(docs.Keys);
            Newest(docs, limit) == if limit > 0 && |names| > limit then names[|names| - limit..] else names
  {
  }

  /** The traces in some documents, without those that do not decode. */
  function Traces(docs: map<string, Document>, names: seq<string>): seq<View>
    requires forall i :: 0 <= i < |names| ==> names[i] in docs
  {
    if names == [] then []
    else
      var d := docs[names[|names| - 1]];
      Traces(docs, names[..|names| - 1]) + if d.Readable? then [d.trace] else []
  }

  /** Their copies: `now` and `at` are the clock readings each is made with. */
  function Frozen(traces: seq<View>, now: View -> int, at: View -> nat -> int): (r: seq<View>)
    ensures |r| == |traces|
  {
    seq(|traces|, i requires 0 <= i < |traces| => FreezeAt(traces[i], now(traces[i]), at(traces[i])))
  }

  lemma CopyKeepsId(v: View, now: int, at: nat -> int)
    ensures FreezeAt(v, now, at).info.id == v.info.id
  {
  }

  /** What one document adds to the ring. */
  function Read(d: Document, now: View -> int, at: View -> nat -> int): seq<View> {
    match d
    case Readable(t) => [FreezeAt(t, now(t), at(t))]
    case Garbled => []
  }

  lemma ReadNone(docs: map<string, Document>, names: seq<string>, now: View -> int, at: View -> nat -> int)
    ensures Frozen(Traces(docs, names[..0]), now, at) == []
  {
  }

  lemma ReadStep(docs: map<string, Document>, names: seq<string>, i: nat, now: View -> int, at: View -> nat -> int)
    requires i < |names| && forall k :: 0 <= k < |names| ==> names[k] in docs
    ensures Frozen(Traces(docs, names[..i + 1]), now, at)
      == Frozen(Traces(docs, names[..i]), now, at) + Read(docs[names[i]], now, at)
  {
    hide FreezeAt;
    assert names[..i + 1][..i] == names[..i];
  }

  /** A restored trace reads as one still running. Its copies show what was
      saved at every moment only where nothing in it is timed: the spans' times
      only if there is no span, and the trace's own time only if that is not
      zero. */
  lemma RestoredReadsAsRunning(v: View)
    ensures forall now: int, nows: seq<int> {:trigger Freeze(Decoded(v), now, nows)} :: |nows| == |v.spans| ==>
      Freeze(Decoded(v), now, nows).info.inFlight
    ensures v.spans == [] <==>
      forall now: int, nows: seq<int>, i {:trigger Freeze(Decoded(v), now, nows).spans[i]} ::
        |nows| == |v.spans| && 0 <= i < |v.spans| ==>
          Freeze(Decoded(v), now, nows).spans[i].span.duration == v.spans[i].span.duration
    ensures v.info.duration != 0 <==>
      forall now: int, nows: seq<int> {:trigger Freeze(Decoded(v), now, nows)} :: |nows| == |v.spans| ==>
        Freeze(Decoded(v), now, nows).info.duration == v.info.duration
  {
    if v.spans != [] {
      var s := v.spans[0].span;
      var later := s.startedAt + (if s.duration >= 0 then s.duration else 0) + 1;
      var f := Freeze(Decoded(v), 0, seq(|v.spans|, _ => later));
      assert f.spans[0].span.duration != s.duration;
    }
    if v.info.duration == 0 {
      var f := Freeze(Decoded(v), v.info.startedAt + 1, seq(|v.spans|, _ => 0));
      assert f.info.duration != v.info.duration;
    }
  }

  /** Everything else a restored trace shows is what was saved: its facts, its
      request, its log, and of each span all but the time and its end. */
  lemma RestoredShowsRest(v: View, now: int, nows: seq<int>)
    requires |nows| == |v.spans|
    ensures var f := Freeze(Decoded(v), now, nows);
            && f.http == v.http && f.logs == v.logs && |f.spans| == |v.spans|
            && f.info.id == v.info.id && f.info.state == v.info.state && f.info.errorText == v.info.errorText
            && f.info.startedAt == v.info.startedAt && f.info.updatedAt == v.info.updatedAt
            && f.info.droppedSpans == v.info.droppedSpans && f.info.droppedLogs == v.info.droppedLogs
            && forall i :: 0 <= i < |v.spans| ==>
                 var s, s' := v.spans[i], f.spans[i];
                 && s'.id == s.id && s'.span.parentId == s.span.parentId && s'.span.depth == s.span.depth
                 && s'.span.name == s.span.name && s'.span.kind == s.span.kind && s'.span.debug == s.span.debug
                 && s'.span.startedAt == s.span.startedAt && s'.span.errorText == s.span.errorText
                 && !s'.span.ended
  {
  }
}
