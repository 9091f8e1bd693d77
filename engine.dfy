/** The splitting engine as functions over the event sequence: the skip past
    the root start tag, the fragment extraction loop, the outer scan loop and
    the output path. A position `i` in the sequence stands for the reader's
    cursor: the events before it have been read. */
module Engine {
  import opened XmlEvents
  import opened Matching

  /** Ways a run stops early. `NoRootElement`: the skip to the root start tag
      meets an end tag, the document end, or the end of input.
      `NoSuchElement`: a record starts at the very last event, so the first
      read of its content has nothing to read. */
  datatype Failure = NoRootElement | NoSuchElement

  /** What a run produces: the fragments in the order they are written, and
      the failure that stopped the run, if any. Fragments written before a
      failure stay written. */
  datatype Outcome = Outcome(fragments: seq<seq<Event>>, failure: Option<Failure>)

  /** One output document: where it goes and the events written to it. */
  datatype OutputFile = OutputFile(path: string, content: seq<Event>)

  /** Events the skip to the root start tag passes over. */
  predicate Skippable(e: Event)
  {
    e == StartDoc || e == Other
  }

  /** Index of the root start tag when reading from `i`: the first event that
      is not skippable, provided it is a start tag. */
  function TagIndex(s: seq<Event>, i: nat): (r: Option<nat>)
    requires i <= |s|
    ensures r.Some? ==> i <= r.value < |s| && s[r.value].Start?
    ensures r.Some? ==> forall k :: i <= k < r.value ==> Skippable(s[k])
    decreases |s| - i
  {
    if i == |s| then None
    else if Skippable(s[i]) then TagIndex(s, i + 1)
    else if s[i].Start? then Some(i)
    else None
  }

  /** True when `e`, read with the counter now at `depth`, ends the record
      named `name` whose start tag was read at `startDepth`. */
  predicate Closes(e: Event, depth: int, startDepth: int, name: QName)
  {
    e.End? && e.name == name && depth == startDepth
  }

  /** Every count from `s[j]` on equals the count from `s[j + 1]` on. */
  lemma DepthShift(s: seq<Event>, j: nat, depth: int, n: nat)
    requires j + 1 < |s| && j + 1 <= n <= |s|
    ensures forall m :: j + 1 < m <= n ==>
              Track(s, j, m, depth) == Track(s, j + 1, m, Step(depth, s[j + 1]))
  {
    forall m | j + 1 < m <= n
      ensures Track(s, j, m, depth) == Track(s, j + 1, m, Step(depth, s[j + 1]))
    {
      TrackShift(s, j, m, depth);
    }
  }

  /** Where extraction stops: the position after the last event read, the
      counter there, and the events copied into the fragment. */
  datatype Drained = Drained(next: nat, depth: int, copied: seq<Event>)

  /** The extraction loop. `s[j]` has just been read and counted (`depth`
      includes it). It is copied; extraction stops after it when it closes the
      record or when nothing follows it, and otherwise reads the next event. */
  function Drain(s: seq<Event>, j: nat, depth: int, startDepth: int, name: QName): (r: Drained)
    requires j < |s|
    ensures j < r.next <= |s|
    ensures r.copied == s[j..r.next]
    decreases |s| - j
  {
    if j + 1 == |s| || Closes(s[j], depth, startDepth, name) then
      Drained(j + 1, depth, [s[j]])
    else
      var r := Drain(s, j + 1, Step(depth, s[j + 1]), startDepth, name);
      assert [s[j]] + s[j + 1..r.next] == s[j..r.next];
      Drained(r.next, r.depth, [s[j]] + r.copied)
  }

  /** Where extraction stops, independently of how the loop runs: at the
      first event that, read with the counter where the tracker has it,
      closes the record, or after the last event when none does. The
      counter there is the tracker's count of every event read. */
  lemma {:induction false} DrainCharacterized(s: seq<Event>, j: nat, depth: int, startDepth: int, name: QName)
    requires j < |s|
    ensures var r := Drain(s, j, depth, startDepth, name);
            r.depth == Track(s, j, r.next, depth) &&
            (r.next == |s| || Closes(s[r.next - 1], r.depth, startDepth, name)) &&
            forall m :: j < m < r.next ==> !Closes(s[m - 1], Track(s, j, m, depth), startDepth, name)
    decreases |s| - j
  {
    var r := Drain(s, j, depth, startDepth, name);
    if !(j + 1 == |s| || Closes(s[j], depth, startDepth, name)) {
      DrainCharacterized(s, j + 1, Step(depth, s[j + 1]), startDepth, name);
      DepthShift(s, j, depth, r.next);
    }
  }

  /** The converse: a position where the record closes (or the input ends)
      with no closing event before it is where extraction stops. */
  lemma {:induction false} DrainStopsAt(s: seq<Event>, j: nat, depth: int, startDepth: int, name: QName, n: nat)
    requires j < n <= |s|
    requires n == |s| || Closes(s[n - 1], Track(s, j, n, depth), startDepth, name)
    requires forall m :: j < m < n ==> !Closes(s[m - 1], Track(s, j, m, depth), startDepth, name)
    ensures Drain(s, j, depth, startDepth, name) == Drained(n, Track(s, j, n, depth), s[j..n])
    decreases n - j
  {
    if n > j + 1 {
      assert !Closes(s[j], Track(s, j, j + 1, depth), startDepth, name);
      var j1, d := j + 1, Step(depth, s[j + 1]);
      forall m | j1 < m < n
        ensures !Closes(s[m - 1], Track(s, j1, m, d), startDepth, name)
      {
        TrackShift(s, j, m, depth);
      }
      TrackShift(s, j, n, depth);
      DrainStopsAt(s, j1, d, startDepth, name, n);
    }
  }

  /** The shape of every written fragment: a document start, a start tag,
      the copied events, a document end. */
  predicate IsFragment(f: seq<Event>)
  {
    |f| >= 4 && f[0] == StartDoc && f[1].Start? && f[|f| - 1] == EndDoc
  }

  /** The outer scan loop from position `i` with the counter at `depth`. It
      stops at the end of input or when the next event is the document end.
      Every event read is counted; a start tag that matches (tested with the
      depth before it) is followed by extraction, and the scan resumes at the
      event after the last one extraction read. */
  function Scan(c: Criteria, s: seq<Event>, i: nat, depth: int): (r: Outcome)
    requires i <= |s|
    ensures r.failure != Some(NoRootElement)
    decreases |s| - i
  {
    if i == |s| || s[i] == EndDoc then Outcome([], None)
    else
      var e := s[i];
      var d := Step(depth, e);
      if !Matches(c, depth, e) then Scan(c, s, i + 1, d)
      else if i + 1 == |s| then Outcome([], Some(NoSuchElement))
      else
        var r := Drain(s, i + 1, Step(d, s[i + 1]), depth, e.name);
        var rest := Scan(c, s, r.next, r.depth);
        Outcome([[StartDoc, e] + r.copied + [EndDoc]] + rest.fragments, rest.failure)
  }

  /** A step of the scan past an event that does not start a record. */
  lemma ScanSkips(c: Criteria, s: seq<Event>, i: nat, depth: int)
    requires i < |s| && s[i] != EndDoc && !Matches(c, depth, s[i])
    ensures Scan(c, s, i, depth) == Scan(c, s, i + 1, Step(depth, s[i]))
  {
  }

  /** A step of the scan at a start tag that begins a record: one fragment,
      then the scan from where extraction stopped, or the failure when the
      start tag is the last event. */
  lemma ScanRecords(c: Criteria, s: seq<Event>, i: nat, depth: int)
    requires i < |s| && s[i] != EndDoc && Matches(c, depth, s[i])
    ensures i + 1 == |s| ==> Scan(c, s, i, depth) == Outcome([], Some(NoSuchElement))
    ensures i + 1 < |s| ==>
              var r := Drain(s, i + 1, Step(Step(depth, s[i]), s[i + 1]), depth, s[i].name);
              Scan(c, s, i, depth) == Prepend([[StartDoc, s[i]] + r.copied + [EndDoc]], Scan(c, s, r.next, r.depth))
  {
  }

  /** Every fragment the scan writes has the fragment shape, and the only
      way the scan fails is a record starting at the last event. */
  lemma {:induction false} ScanFragments(c: Criteria, s: seq<Event>, i: nat, depth: int)
    requires i <= |s|
    ensures forall f :: f in Scan(c, s, i, depth).fragments ==> IsFragment(f)
    ensures Scan(c, s, i, depth).failure.Some? ==> Scan(c, s, i, depth).failure == Some(NoSuchElement)
    decreases |s| - i
  {
    if i == |s| || s[i] == EndDoc {
    } else {
      var d := Step(depth, s[i]);
      if !Matches(c, depth, s[i]) {
        ScanFragments(c, s, i + 1, d);
      } else if i + 1 < |s| {
        var r := Drain(s, i + 1, Step(d, s[i + 1]), depth, s[i].name);
        ScanFragments(c, s, r.next, r.depth);
      }
    }
  }

  /** A whole run: skip to the root start tag, then scan with the counter at 1. */
  function SplitSpec(c: Criteria, s: seq<Event>): (r: Outcome)
    ensures r.failure == Some(NoRootElement) <==> TagIndex(s, 0).None?
    ensures TagIndex(s, 0).None? ==> r.fragments == []
  {
    match TagIndex(s, 0)
    case None => Outcome([], Some(NoRootElement))
    case Some(k) => Scan(c, s, k + 1, 1)
  }

  /** Fragments already written in front of what a later part of the run produces. */
  function Prepend(fs: seq<seq<Event>>, o: Outcome): Outcome
  {
    Outcome(fs + o.fragments, o.failure)
  }

  /** Fragments written in two stretches are the fragments of both, in order. */
  lemma PrependPrepend(a: seq<seq<Event>>, b: seq<seq<Event>>, o: Outcome)
    ensures Prepend(a, Prepend(b, o)) == Prepend(a + b, o)
  {
    assert a + (b + o.fragments) == (a + b) + o.fragments;
  }

  /** Nothing written in front leaves the outcome as it is. */
  lemma PrependNothing(o: Outcome)
    ensures Prepend([], o) == o
  {
    assert [] + o.fragments == o.fragments;
  }

  /** The platform's file separator. */

  const Separator: string := "/"

  /** The output file path: the directory, a separator only when the
      directory is non-empty, then the file name. */
  function OutputPath(dir: string, fileName: string): (path: string)
    ensures |path| == |dir| + (if |dir| > 0 then |Separator| else 0) + |fileName|
    ensures path[..|dir|] == dir
    ensures |dir| > 0 ==> path[|dir|..|dir| + |Separator|] == Separator
    ensures path[|path| - |fileName|..] == fileName
  {
    dir + (if |dir| > 0 then Separator else "") + fileName
  }

  /** `files` holds the fragments `frags` in order, file k named by the k-th
      generated unique name with ".xml" appended, in the directory `dir`. */
  predicate Named(files: seq<OutputFile>, dir: string, uuids: nat -> string, frags: seq<seq<Event>>)
  {
    |files| == |frags| &&
    forall k :: 0 <= k < |files| ==> files[k] == OutputFile(OutputPath(dir, uuids(k) + ".xml"), frags[k])
  }

  /** Writing one more fragment to the next file keeps the files and the
      fragments in step. */
  lemma NamedAppend(files: seq<OutputFile>, dir: string, uuids: nat -> string, frags: seq<seq<Event>>, f: seq<Event>)
    requires Named(files, dir, uuids, frags)
    ensures Named(files + [OutputFile(OutputPath(dir, uuids(|files|) + ".xml"), f)], dir, uuids, frags + [f])
  {
  }
}
