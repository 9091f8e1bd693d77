/** What the splitter produces on a well-formed document, defined on the
    document's element tree, and the proof that the scan over the event
    stream produces exactly that. */
module Reference {
  import opened XmlEvents
  import opened Matching
  import opened Engine

  /** The records under the sibling run `ns`, whose parent is at `depth`: a
      matching element is one record (its content is not searched further),
      a non-matching element's children are searched one level deeper. */
  function Records(c: Criteria, ns: seq<Node>, depth: int): seq<seq<Event>>
    decreases ns
  {
    if ns == [] then [] else RecordsIn(c, ns[0], depth) + Records(c, ns[1..], depth)
  }

  function RecordsIn(c: Criteria, n: Node, depth: int): seq<seq<Event>>
    decreases n
  {
    match n
    case Leaf => []
    case Element(q, cs) =>
      if Matches(c, depth, Start(q)) then [[StartDoc] + Serialize(n) + [EndDoc]]
      else Records(c, cs, depth + 1)
  }

  /** Depth-gated termination. After the start tag of a record named `name`
      read at `startDepth`, with the elements `open` still open inside it,
      well-nested `body` followed by the end tag `name` is copied whole: end
      tags inside `body`, whatever their names, are read deeper than
      `startDepth`, so only the end tag after `body` closes the record, and
      the counter is back at `startDepth`. */
  lemma {:induction false} DrainNested(s: seq<Event>, j: nat, body: seq<Event>, open: seq<QName>,
                                       startDepth: int, name: QName)
    requires j + |body| < |s|
    requires s[j..j + |body|] == body && s[j + |body|] == End(name)
    requires Nest(open, body)
    ensures Drain(s, j, Step(startDepth + 1 + |open|, s[j]), startDepth, name)
            == Drained(j + |body| + 1, startDepth, body + [End(name)])
    decreases |body|
  {
    if body == [] {
      assert s[j] == End(name);
    } else {
      var e := body[0];
      assert s[j] == e;
      var open' := match e
        case Start(q) => [q] + open
        case End(_) => open[1..]
        case _ => open;
      assert Nest(open', body[1..]);
      assert |open'| == |open| + Delta(e);
      assert s[j + 1..j + 1 + |body[1..]|] == body[1..];
      DrainNested(s, j + 1, body[1..], open', startDepth, name);
      assert [e] + (body[1..] + [End(name)]) == body + [End(name)];
    }
  }

  /** Where the parts of a serialized element sit in the stream. */
  lemma ElementAt(s: seq<Event>, i: nat, q: QName, cs: seq<Node>)
    requires i + |Serialize(Element(q, cs))| <= |s|
    requires s[i..i + |Serialize(Element(q, cs))|] == Serialize(Element(q, cs))
    ensures |Serialize(Element(q, cs))| == |SerializeAll(cs)| + 2
    ensures s[i] == Start(q)
    ensures s[i + 1..i + 1 + |SerializeAll(cs)|] == SerializeAll(cs)
    ensures s[i + 1 + |SerializeAll(cs)|] == End(q)
  {
    var sn := Serialize(Element(q, cs));
    var body := SerializeAll(cs);
    assert sn == [Start(q)] + body + [End(q)];
    assert s[i] == s[i..i + |sn|][0];
    assert s[i + 1 + |body|] == s[i..i + |sn|][1 + |body|];
    SliceWithin(s, i, sn, 1, 1 + |body|);
    assert sn[1..1 + |body|] == body;
  }

  /** The fragment written for a record is the document start, the record's
      serialization, and the document end. */
  lemma FragmentOfElement(q: QName, body: seq<Event>)
    ensures [StartDoc, Start(q)] + (body + [End(q)]) + [EndDoc] == [StartDoc] + ([Start(q)] + body + [End(q)]) + [EndDoc]
  {
  }

  /** The scan at the start tag of a serialized record: one fragment holding
      the whole element, then the scan after its end tag at the same depth. */
  lemma ScanRecordElement(c: Criteria, s: seq<Event>, i: nat, depth: int, q: QName, cs: seq<Node>)
    requires i + |SerializeAll(cs)| + 2 <= |s|
    requires s[i] == Start(q) && s[i + 1 + |SerializeAll(cs)|] == End(q)
    requires s[i + 1..i + 1 + |SerializeAll(cs)|] == SerializeAll(cs)
    requires Matches(c, depth, Start(q))
    ensures Scan(c, s, i, depth)
            == Prepend([[StartDoc] + Serialize(Element(q, cs)) + [EndDoc]], Scan(c, s, i + |SerializeAll(cs)| + 2, depth))
  {
    var body := SerializeAll(cs);
    SerializedIsWellNested(Element(q, cs), cs);
    DrainNested(s, i + 1, body, [], depth, q);
    ScanRecords(c, s, i, depth);
    FragmentOfElement(q, body);
  }

  /** Scanning over one serialized node yields that node's records, then the
      scan carries on after the node with the counter where it was. */
  lemma {:induction false} ScanNode(c: Criteria, s: seq<Event>, i: nat, depth: int, n: Node)
    requires i + |Serialize(n)| <= |s|
    requires s[i..i + |Serialize(n)|] == Serialize(n)
    ensures Scan(c, s, i, depth) == Prepend(RecordsIn(c, n, depth), Scan(c, s, i + |Serialize(n)|, depth))
    decreases n
  {
    match n
    case Leaf =>
      assert s[i] == s[i..i + 1][0] == Other;
      ScanSkips(c, s, i, depth);
    case Element(q, cs) =>
      var body := SerializeAll(cs);
      ElementAt(s, i, q, cs);
      if Matches(c, depth, Start(q)) {
        ScanRecordElement(c, s, i, depth, q, cs);
      } else {
        ScanSkips(c, s, i, depth);
        ScanNodes(c, s, i + 1, depth + 1, cs);
        ScanSkips(c, s, i + 1 + |body|, depth + 1);
      }
  }

  /** Where the first sibling and the remaining ones sit in the stream. */
  lemma SiblingsAt(s: seq<Event>, i: nat, ns: seq<Node>)
    requires ns != []
    requires i + |SerializeAll(ns)| <= |s|
    requires s[i..i + |SerializeAll(ns)|] == SerializeAll(ns)
    ensures |SerializeAll(ns)| == |Serialize(ns[0])| + |SerializeAll(ns[1..])|
    ensures s[i..i + |Serialize(ns[0])|] == Serialize(ns[0])
    ensures s[i + |Serialize(ns[0])|..i + |SerializeAll(ns)|] == SerializeAll(ns[1..])
  {
    var first := Serialize(ns[0]);
    var rest := SerializeAll(ns[1..]);
    assert SerializeAll(ns) == first + rest;
    SliceWithin(s, i, first + rest, 0, |first|);
    SliceWithin(s, i, first + rest, |first|, |first| + |rest|);
    assert (first + rest)[0..|first|] == first;
    assert (first + rest)[|first|..|first| + |rest|] == rest;
  }

  lemma {:induction false} ScanNodes(c: Criteria, s: seq<Event>, i: nat, depth: int, ns: seq<Node>)
    requires i + |SerializeAll(ns)| <= |s|
    requires s[i..i + |SerializeAll(ns)|] == SerializeAll(ns)
    ensures Scan(c, s, i, depth) == Prepend(Records(c, ns, depth), Scan(c, s, i + |SerializeAll(ns)|, depth))
    decreases ns
  {
    if ns == [] {
      assert Records(c, ns, depth) == [];
      PrependNothing(Scan(c, s, i, depth));
    } else {
      SiblingsAt(s, i, ns);
      var mid := i + |Serialize(ns[0])|;
      var end := i + |SerializeAll(ns)|;
      ScanNode(c, s, i, depth, ns[0]);
      ScanNodes(c, s, mid, depth, ns[1..]);
      PrependPrepend(RecordsIn(c, ns[0], depth), Records(c, ns[1..], depth), Scan(c, s, end, depth));
      assert Records(c, ns, depth) == RecordsIn(c, ns[0], depth) + Records(c, ns[1..], depth);
    }
  }

  /** The skip to the root start tag passes over every skippable event. */
  lemma {:induction false} TagIndexSkips(s: seq<Event>, i: nat, k: nat)
    requires i <= k < |s| && s[k].Start?
    requires forall m :: i <= m < k ==> Skippable(s[m])
    ensures TagIndex(s, i) == Some(k)
    decreases k - i
  {
    if i < k {
      TagIndexSkips(s, i + 1, k);
    }
  }

  /** The scan passes over character data, comments and the like without
      producing anything. */
  lemma {:induction false} ScanSkipsOther(c: Criteria, s: seq<Event>, i: nat, k: nat, depth: int)
    requires i <= k <= |s|
    requires forall m :: i <= m < k ==> s[m] == Other
    ensures Scan(c, s, i, depth) == Scan(c, s, k, depth)
    decreases k - i
  {
    if i < k {
      ScanSkipsOther(c, s, i + 1, k, depth);
    }
  }

  /** The central property. For a well-formed document (document start and
      other skippable events, the root element, trailing character data or
      comments, the document end) the run finishes without failure and writes
      exactly the records of the root's children, tested at depth 1: each is
      a document start, the serialized element with all its descendants, a
      document end; descendants of a record are never split out, while the
      descendants of an element that is not a record are still tested. */
  lemma SplitWellFormed(c: Criteria, prolog: seq<Event>, root: QName, children: seq<Node>, epilog: seq<Event>)
    requires forall k :: 0 <= k < |prolog| ==> Skippable(prolog[k])
    requires forall k :: 0 <= k < |epilog| ==> epilog[k] == Other
    ensures SplitSpec(c, prolog + Serialize(Element(root, children)) + epilog + [EndDoc])
            == Outcome(Records(c, children, 1), None)
  {
    var body := SerializeAll(children);
    var s := prolog + Serialize(Element(root, children)) + epilog + [EndDoc];
    var p := |prolog|;
    var afterRoot := p + 1 + |body| + 1;
    DocumentLayout(prolog, root, children, epilog);
    TagIndexSkips(s, 0, p);
    ScanNodes(c, s, p + 1, 1, children);
    ScanSkips(c, s, p + 1 + |body|, 1);
    ScanSkipsOther(c, s, afterRoot, afterRoot + |epilog|, 0);
    assert Records(c, children, 1) + [] == Records(c, children, 1);
  }

  /** Where the parts of a document sit in its event stream. */
  lemma DocumentLayout(prolog: seq<Event>, root: QName, children: seq<Node>, epilog: seq<Event>)
    requires forall k :: 0 <= k < |prolog| ==> Skippable(prolog[k])
    requires forall k :: 0 <= k < |epilog| ==> epilog[k] == Other
    ensures var s, body := prolog + Serialize(Element(root, children)) + epilog + [EndDoc], SerializeAll(children);
            var p := |prolog|;
            |s| == p + |body| + 2 + |epilog| + 1 &&
            (forall m :: 0 <= m < p ==> Skippable(s[m])) &&
            s[p] == Start(root) && s[p + 1..p + 1 + |body|] == body && s[p + 1 + |body|] == End(root) &&
            (forall m :: p + |body| + 2 <= m < p + |body| + 2 + |epilog| ==> s[m] == Other) &&
            s[p + |body| + 2 + |epilog|] == EndDoc
  {
    var s, body := prolog + Serialize(Element(root, children)) + epilog + [EndDoc], SerializeAll(children);
    var p := |prolog|;
    assert s == prolog + ([Start(root)] + body + [End(root)]) + epilog + [EndDoc];
    forall m | p + |body| + 2 <= m < p + |body| + 2 + |epilog|
      ensures s[m] == Other
    {
      assert s[m] == epilog[m - (p + |body| + 2)];
    }
    assert s[p + 1..p + 1 + |body|] == body;
  }

  /** `f` is a standalone document whose root satisfies the name criterion. */
  predicate IsRecordDocument(c: Criteria, f: seq<Event>)
  {
    |f| >= 4 && f[0] == StartDoc && f[|f| - 1] == EndDoc && f[1].Start? &&
    f[|f| - 2] == End(f[1].name) && WellNested(f[1..|f| - 1]) &&
    (c.name.Some? ==> f[1].name == c.name.value)
  }

  /** Every record is a standalone document: document start, a start tag, a
      well-nested body, the end tag with the same name, document end; and its
      root carries the record name whenever a name criterion is set. */
  lemma {:induction false} RecordsAreDocuments(c: Criteria, ns: seq<Node>, depth: int)
    ensures forall f :: f in Records(c, ns, depth) ==> IsRecordDocument(c, f)
    decreases ns
  {
    if ns != [] {
      RecordsInAreDocuments(c, ns[0], depth);
      RecordsAreDocuments(c, ns[1..], depth);
    }
  }

  lemma {:induction false} RecordsInAreDocuments(c: Criteria, n: Node, depth: int)
    ensures forall f :: f in RecordsIn(c, n, depth) ==> IsRecordDocument(c, f)
    decreases n
  {
    match n
    case Leaf =>
    case Element(q, cs) =>
      if Matches(c, depth, Start(q)) {
        var f := [StartDoc] + Serialize(n) + [EndDoc];
        SerializedIsWellNested(n, cs);
        assert f[1..|f| - 1] == Serialize(n);
      } else {
        RecordsAreDocuments(c, cs, depth + 1);
      }
  }
}
