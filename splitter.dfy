/** The splitter object: its option fields and setters, criteria resolution
    in place, and `Split`, the two nested loops over a forward-only reader. */
module Splitter {
  import opened XmlEvents
  import opened Matching
  import opened Engine

  /** A forward-only event reader: the events of one document and a cursor.
      Events before `pos` have been read. */
  class EventReader {
    const events: seq<Event>
    var pos: nat

    ghost predicate Valid()
      reads this
    {
      pos <= |events|
    }

    constructor (events: seq<Event>)
      ensures Valid() && this.events == events && pos == 0
    {
      this.events := events;
      pos := 0;
    }

    predicate HasNext()
      reads this
    {
      pos < |events|
    }

    function Peek(): Event
      reads this
      requires HasNext()
    {
      events[pos]
    }

    /** Reads one event. */
    method NextEvent() returns (e: Event)
      requires HasNext()
      modifies this`pos
      ensures Valid() && pos == old(pos) + 1 && e == events[old(pos)]
    {
      e := events[pos];
      pos := pos + 1;
    }

    /** Skips every skippable event (document start and `Other`) up to the
        next tag, which must be a start tag; on success the cursor is just
        past it. */
    method NextTag() returns (root: Option<QName>)
      requires Valid()
      modifies this`pos
      ensures Valid()
      ensures match TagIndex(events, old(pos))
              case Some(k) => root == Some(events[k].name) && pos == k + 1
              case None => root == None
    {
      while pos < |events| && Skippable(events[pos])
        invariant Valid() && old(pos) <= pos
        invariant TagIndex(events, pos) == TagIndex(events, old(pos))
        decreases |events| - pos
      {
        pos := pos + 1;
      }
      if pos < |events| && events[pos].Start? {
        root := Some(events[pos].name);
        pos := pos + 1;
      } else {
        root := None;
      }
    }
  }

  /** The splitter's configuration. A `None` string field stands for a Java
      null. */
  class XMLSplitter {
    var inputFilePath: Option<string>
    var aggregateRecordElement: Option<string>
    var aggregateRecordNamespace: Option<string>
    var outputDirectoryPath: Option<string>
    var aggregateDepth: int
    var hasAggregateRecordQName: bool
    var hasAggregateDepth: bool
    var aggregateRecordQName: Option<QName>

    /** The flags agree with the values they guard. */
    ghost predicate Valid()
      reads this
    {
      (hasAggregateRecordQName <==> aggregateRecordQName.Some?) &&
      (!hasAggregateDepth ==> aggregateDepth == -1)
    }

    /** The depth criterion the fields hold. */
    function DepthCriterion(): Option<int>
      reads this
    {
      if hasAggregateDepth then Some(aggregateDepth) else None
    }

    /** The criteria the fields hold, as the record test reads them. */
    function CurrentCriteria(): Criteria
      reads this
    {
      Criteria(DepthCriterion(), if hasAggregateRecordQName then aggregateRecordQName else None)
    }

    constructor ()
      ensures Valid()
      ensures inputFilePath == None && aggregateRecordElement == None
      ensures aggregateRecordNamespace == None && outputDirectoryPath == None
      ensures aggregateDepth == -1 && !hasAggregateDepth
      ensures !hasAggregateRecordQName && aggregateRecordQName == None
    {
      inputFilePath := None;
      aggregateRecordElement := None;
      aggregateRecordNamespace := None;
      outputDirectoryPath := None;
      aggregateDepth := -1;
      hasAggregateRecordQName := false;
      hasAggregateDepth := false;
      aggregateRecordQName := None;
    }

    /** A missing path becomes the empty string. */
    method SetInputFilePath(path: Option<string>)
      modifies this`inputFilePath
      ensures inputFilePath == Some(if path.None? then "" else path.value)
    {
      if path.None? {
        inputFilePath := Some("");
      } else {
        inputFilePath := path;
      }
    }

    method SetAggregateRecordElement(elem: Option<string>)
      modifies this`aggregateRecordElement
      ensures aggregateRecordElement == elem
    {
      aggregateRecordElement := elem;
    }

    method SetAggregateRecordNamespace(ns: Option<string>)
      modifies this`aggregateRecordNamespace
      ensures aggregateRecordNamespace == ns
    {
      aggregateRecordNamespace := ns;
    }

    /** A missing directory becomes the empty string. */
    method SetOutputDirectoryPath(path: Option<string>)
      modifies this`outputDirectoryPath
      ensures outputDirectoryPath == Some(if path.None? then "" else path.value)
    {
      if path.None? {
        outputDirectoryPath := Some("");
      } else {
        outputDirectoryPath := path;
      }
    }

    /** No depth clears the depth criterion (value -1); a depth, already
        parsed to an integer, sets it. */
    method SetAggregateDepth(depth: Option<int>)
      modifies this`aggregateDepth, this`hasAggregateDepth
      ensures DepthCriterion() == depth
      ensures depth.None? ==> aggregateDepth == -1 && !hasAggregateDepth
      ensures depth.Some? ==> aggregateDepth == depth.value && hasAggregateDepth
    {
      if depth.None? {
        aggregateDepth := -1;
        hasAggregateDepth := false;
      } else {
        aggregateDepth := depth.value;
        hasAggregateDepth := true;
      }
    }

    /** Builds the record name from the element and namespace options. */
    method ConstructQName()
      modifies this`aggregateRecordQName, this`hasAggregateRecordQName
      ensures aggregateRecordQName == RecordQName(aggregateRecordElement, aggregateRecordNamespace)
      ensures hasAggregateRecordQName <==> aggregateRecordQName.Some?
    {
      if aggregateRecordElement.Some? && |aggregateRecordElement.value| > 0 {
        var ns := aggregateRecordNamespace;
        if ns.Some? && |ns.value| > 0 {
          aggregateRecordQName := Some(QName(aggregateRecordElement.value, aggregateRecordNamespace.value));
        } else {
          aggregateRecordQName := Some(QName("", aggregateRecordElement.value));
        }
        hasAggregateRecordQName := true;
      } else {
        hasAggregateRecordQName := false;
        aggregateRecordQName := None;
      }
    }

    /** Resolves the criteria: the record name, and depth 1 when there is
        neither a name nor a depth. */
    method CheckParams()
      requires Valid()
      modifies this`aggregateRecordQName, this`hasAggregateRecordQName, this`aggregateDepth, this`hasAggregateDepth
      ensures Valid()
      ensures CurrentCriteria() == Resolve(aggregateRecordElement, aggregateRecordNamespace, old(DepthCriterion()))
    {
      ConstructQName();
      if !hasAggregateRecordQName && !hasAggregateDepth {
        hasAggregateDepth := true;
        aggregateDepth := 1;
      }
    }

    /** The extraction loop, run after the start tag `start` of a record was
        read with the counter at `startDepth` before it and `depth` after it.
        It writes a document start and `start`, then reads and copies events
        until one closes the record or none follows, then writes a document
        end. It fails, reading nothing, when no event follows `start`. */
    static method ExtractRecord(xer: EventReader, start: Event, startDepth: int, depth: int)
        returns (fragment: seq<Event>, newDepth: int, ok: bool)
      requires xer.Valid() && start.Start?
      modifies xer`pos
      ensures xer.Valid()
      ensures ok <==> old(xer.pos) < |xer.events|
      ensures !ok ==> xer.pos == old(xer.pos)
      ensures ok ==>
                var r := Drain(xer.events, old(xer.pos), Step(depth, xer.events[old(xer.pos)]), startDepth, start.name);
                xer.pos == r.next && newDepth == r.depth && fragment == [StartDoc, start] + r.copied + [EndDoc]
    {
      newDepth := depth;
      fragment := [StartDoc, start];
      if !xer.HasNext() {
        ok := false;
        return;
      }
      ok := true;
      var xmlEvent := xer.NextEvent();
      newDepth := Step(newDepth, xmlEvent);
      var written;
      written, newDepth := CopyRecord(xer, xmlEvent, startDepth, newDepth, start.name);
      fragment := fragment + written + [EndDoc];
    }

    /** The copy loop of the extraction. `first`, the event just read, is
        counted in `depth`; it and the events after it are written until one
        closes the record (an end tag with the record's name, read with the
        counter back at `startDepth`) or none follows. The closing event is
        written too. */
    static method CopyRecord(xer: EventReader, first: Event, startDepth: int, depth: int, name: QName)
        returns (written: seq<Event>, newDepth: int)
      requires xer.Valid() && 0 < xer.pos && first == xer.events[xer.pos - 1]
      modifies xer`pos
      ensures xer.Valid()
      ensures Drain(xer.events, old(xer.pos) - 1, depth, startDepth, name) == Drained(xer.pos, newDepth, written)
    {
      ghost var events := xer.events;
      ghost var j0 := xer.pos - 1;
      var xmlEvent := first;
      newDepth := depth;
      written := [];

      while xer.HasNext()
        invariant xer.Valid() && xer.events == events && j0 < xer.pos
        invariant xmlEvent == events[xer.pos - 1]
        invariant written == events[j0..xer.pos - 1]
        invariant newDepth == Track(events, j0, xer.pos, depth)
        invariant forall m :: j0 < m < xer.pos ==> !Closes(events[m - 1], Track(events, j0, m, depth), startDepth, name)
        decreases |events| - xer.pos
      {
        if xmlEvent.End? {
          // the depth test keeps a same-named descendant from ending the record
          if name == xmlEvent.name && startDepth == newDepth {
            break;
          }
        }
        assert !Closes(events[xer.pos - 1], Track(events, j0, xer.pos, depth), startDepth, name);
        written := written + [xmlEvent];
        SliceSnoc(events, j0, xer.pos);
        xmlEvent := xer.NextEvent();
        newDepth := Step(newDepth, xmlEvent);
      }
      DrainStopsAt(events, j0, depth, startDepth, name, xer.pos);
      SliceSnoc(events, j0, xer.pos);
      written := written + [xmlEvent];
    }

    /** Splits the document `events`. Output file k is named by the k-th
        generated unique name `uuids(k)` with ".xml" appended and placed in
        the output directory; its content is the k-th fragment of the run. */
    method Split(events: seq<Event>, uuids: nat -> string) returns (files: seq<OutputFile>, failure: Option<Failure>)
      requires Valid() && outputDirectoryPath.Some?
      modifies this`aggregateRecordQName, this`hasAggregateRecordQName, this`aggregateDepth, this`hasAggregateDepth
      ensures Valid()
      ensures CurrentCriteria() == Resolve(aggregateRecordElement, aggregateRecordNamespace, old(DepthCriterion()))
      ensures failure == SplitSpec(CurrentCriteria(), events).failure
      ensures Named(files, outputDirectoryPath.value, uuids, SplitSpec(CurrentCriteria(), events).fragments)
    {
      CheckParams();
      var xer := new EventReader(events);
      // skip past the root element
      var root := xer.NextTag();
      if root.None? {
        files, failure := [], Some(NoRootElement);
        return;
      }
      files, failure := WriteRecords(xer, outputDirectoryPath.value, uuids);
    }

    /** The scan loop after the root start tag: every start tag that passes
        the record test opens the next output file, named by the next unique
        name, and the record is extracted into it. The counter starts at 1
        for the root element. */
    method WriteRecords(xer: EventReader, dir: string, uuids: nat -> string)
        returns (files: seq<OutputFile>, failure: Option<Failure>)
      requires Valid() && xer.Valid()
      modifies xer`pos
      ensures var o := Scan(CurrentCriteria(), xer.events, old(xer.pos), 1);
              failure == o.failure && Named(files, dir, uuids, o.fragments)
    {
      ghost var c := CurrentCriteria();
      ghost var events := xer.events;
      ghost var whole := Scan(c, events, xer.pos, 1);
      ghost var frags: seq<seq<Event>> := [];
      files := [];
      var depth := 1;
      PrependNothing(whole);

      while xer.HasNext() && !xer.Peek().EndDoc?
        invariant xer.Valid() && xer.events == events
        invariant whole == Prepend(frags, Scan(c, events, xer.pos, depth))
        invariant Named(files, dir, uuids, frags)
        modifies xer`pos
        decreases |events| - xer.pos
      {
        // the depth before the event; the end test compares with it after the event
        var startDepth := depth;
        ghost var i := xer.pos;
        var xmlEvent := xer.NextEvent();
        depth := Step(depth, xmlEvent);

        if xmlEvent.Start? {
          if hasAggregateDepth && aggregateDepth != depth - 1 {
            ScanSkips(c, events, i, startDepth);
            continue;
          }
          if hasAggregateRecordQName && xmlEvent.name != aggregateRecordQName.value {
            ScanSkips(c, events, i, startDepth);
            continue;
          }
        } else {
          ScanSkips(c, events, i, startDepth);
          continue;
        }
        ScanRecords(c, events, i, startDepth);
        ghost var before := frags;

        var outputFilePath := OutputPath(dir, uuids(|files|) + ".xml");
        var fragment, ok;
        fragment, depth, ok := ExtractRecord(xer, xmlEvent, startDepth, depth);
        if !ok {
          failure := Some(NoSuchElement);
          assert Scan(c, events, i, startDepth) == Outcome([], Some(NoSuchElement));
          assert frags + [] == frags;
          return;
        }

        NamedAppend(files, dir, uuids, frags, fragment);
        files := files + [OutputFile(outputFilePath, fragment)];
        frags := frags + [fragment];
        PrependPrepend(before, [fragment], Scan(c, events, xer.pos, depth));
      }
      failure := None;
      assert Scan(c, events, xer.pos, depth) == Outcome([], None);
      assert frags + [] == frags;
    }
  }
}
