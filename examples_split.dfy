/** Lemmas that prove the result of a whole split on small documents. Some
    of them are about event sequences that end without a document end, which
    a StAX reader never delivers; they pin down what the loops do there. */
module SplitExamples {
  import opened XmlEvents
  import opened Matching
  import opened Engine
  import opened Reference

  /** A single node serialized as a one-element run of siblings. */
  lemma SerializeOne(n: Node)
    ensures SerializeAll([n]) == Serialize(n)
  {
    assert [n][1..] == [];
    assert Serialize(n) + [] == Serialize(n);
  }

  /** A record whose name recurs on a descendant: with depth 1 and element
      name r, `<root><r><x><r>inner</r></x></r></root>` gives exactly one
      document, `<r><x><r>inner</r></x></r>`; the inner r is neither a
      boundary nor a record of its own. */
  lemma RecursiveRecordExample()
    ensures
      var root, r, x := QName("", "root"), QName("", "r"), QName("", "x");
      SplitSpec(Resolve(Some("r"), None, Some(1)),
                [StartDoc, Start(root), Start(r), Start(x), Start(r), Other, End(r), End(x), End(r), End(root), EndDoc])
      == Outcome([[StartDoc, Start(r), Start(x), Start(r), Other, End(r), End(x), End(r), EndDoc]], None)
  {
    var root, r, x := QName("", "root"), QName("", "r"), QName("", "x");
    var c := Resolve(Some("r"), None, Some(1));
    var inner := Element(r, [Leaf]);
    var middle := Element(x, [inner]);
    var record := Element(r, [middle]);
    SerializeOne(Leaf);
    SerializeOne(inner);
    SerializeOne(middle);
    SerializeOne(record);
    assert Serialize(inner) == [Start(r), Other, End(r)];
    assert Serialize(middle) == [Start(x), Start(r), Other, End(r), End(x)];
    assert Serialize(record) == [Start(r), Start(x), Start(r), Other, End(r), End(x), End(r)];
    assert Serialize(Element(root, [record])) == [Start(root)] + Serialize(record) + [End(root)];
    SerializeOne(record);
    var doc := [StartDoc] + Serialize(Element(root, [record])) + [] + [EndDoc];
    assert doc == [StartDoc, Start(root), Start(r), Start(x), Start(r), Other, End(r), End(x), End(r), End(root), EndDoc];
    SplitWellFormed(c, [StartDoc], root, [record], []);
    assert Records(c, [record], 1) == RecordsIn(c, record, 1) + Records(c, [], 1);
    assert SplitSpec(c, doc) == Outcome(Records(c, [record], 1), None);
    assert Records(c, [record], 1) == [[StartDoc] + Serialize(record) + [EndDoc]];
    assert [StartDoc] + Serialize(record) + [EndDoc] == [StartDoc, Start(r), Start(x), Start(r), Other, End(r), End(x), End(r), EndDoc];
  }

  /** Depth only: with depth 2 and no name, each grandchild of the root is a
      record whatever its name, and the children and great-grandchildren are not. */
  lemma DepthOnlyExample()
    ensures
      var root, a, b, cq, d := QName("", "root"), QName("", "a"), QName("", "b"), QName("", "c"), QName("", "d");
      SplitSpec(Resolve(None, None, Some(2)),
                [StartDoc, Start(root), Start(a), Start(b), Start(d), End(d), End(b), Start(cq), End(cq), End(a), End(root), EndDoc])
      == Outcome([[StartDoc, Start(b), Start(d), End(d), End(b), EndDoc], [StartDoc, Start(cq), End(cq), EndDoc]], None)
  {
    var root, a, b, cq, d := QName("", "root"), QName("", "a"), QName("", "b"), QName("", "c"), QName("", "d");
    var c := Resolve(None, None, Some(2));
    var nd, nc := Element(d, []), Element(cq, []);
    var nb := Element(b, [nd]);
    var tree := Element(a, [nb, nc]);
    assert Serialize(nd) == [Start(d), End(d)];
    assert Serialize(nc) == [Start(cq), End(cq)];
    SerializeOne(nd);
    assert Serialize(nb) == [Start(b), Start(d), End(d), End(b)];
    SerializeOne(nc);
    assert SerializeAll([nb, nc]) == Serialize(nb) + SerializeAll([nc]);
    assert Serialize(tree) == [Start(a), Start(b), Start(d), End(d), End(b), Start(cq), End(cq), End(a)];
    SerializeOne(tree);
    var doc := [StartDoc] + Serialize(Element(root, [tree])) + [] + [EndDoc];
    assert doc == [StartDoc, Start(root), Start(a), Start(b), Start(d), End(d), End(b), Start(cq), End(cq), End(a), End(root), EndDoc];
    SplitWellFormed(c, [StartDoc], root, [tree], []);
    assert RecordsIn(c, nb, 2) == [[StartDoc] + Serialize(nb) + [EndDoc]];
    assert RecordsIn(c, nc, 2) == [[StartDoc] + Serialize(nc) + [EndDoc]];
    assert Records(c, [nb, nc], 2) == RecordsIn(c, nb, 2) + Records(c, [nc], 2);
    assert Records(c, [nc], 2) == RecordsIn(c, nc, 2) + Records(c, [], 2);
    assert RecordsIn(c, tree, 1) == Records(c, [nb, nc], 2);
    assert Records(c, [tree], 1) == RecordsIn(c, tree, 1) + Records(c, [], 1);
    assert SplitSpec(c, doc) == Outcome(Records(c, [tree], 1), None);
    assert [StartDoc] + Serialize(nb) + [EndDoc] == [StartDoc, Start(b), Start(d), End(d), End(b), EndDoc];
    assert [StartDoc] + Serialize(nc) + [EndDoc] == [StartDoc, Start(cq), End(cq), EndDoc];
  }

  /** Input that ends inside a record is not an error: the events up to the
      last one are written, followed by a document end. */
  lemma TruncatedRecordIsWritten()
    ensures
      var root, r := QName("", "root"), QName("", "r");
      SplitSpec(Resolve(None, None, None), [StartDoc, Start(root), Start(r), Other])
      == Outcome([[StartDoc, Start(r), Other, EndDoc]], None)
  {
    var root, r := QName("", "root"), QName("", "r");
    var c := Resolve(None, None, None);
    var s := [StartDoc, Start(root), Start(r), Other];
    assert TagIndex(s, 0) == Some(1);
    assert Matches(c, 1, Start(r));
    assert Drain(s, 3, 2, 1, r) == Drained(4, 2, [Other]);
    assert Scan(c, s, 4, 2) == Outcome([], None);
    assert Scan(c, s, 2, 1) == Outcome([[StartDoc, Start(r)] + [Other] + [EndDoc]], None);
    assert SplitSpec(c, s) == Scan(c, s, 2, 1);
    assert [StartDoc, Start(r)] + [Other] + [EndDoc] == [StartDoc, Start(r), Other, EndDoc];
  }

  /** A record start tag that is the last event leaves nothing to read for
      its content: the run stops with NoSuchElement. */
  lemma RecordAtLastEventFails()
    ensures
      var root, r := QName("", "root"), QName("", "r");
      SplitSpec(Resolve(None, None, None), [StartDoc, Start(root), Start(r)])
      == Outcome([], Some(NoSuchElement))
  {
    var root, r := QName("", "root"), QName("", "r");
    var s := [StartDoc, Start(root), Start(r)];
    assert TagIndex(s, 0) == Some(1);
    assert Matches(Resolve(None, None, None), 1, Start(r));
  }

  /** A document that begins with an end tag has no root to skip to. */
  lemma NoRootExample()
    ensures SplitSpec(Resolve(None, None, None), [StartDoc, End(QName("", "root")), EndDoc])
            == Outcome([], Some(NoRootElement))
  {
  }

  /** `<root><a:r/></root>`: the element r in namespace urn:a, directly
      under the root. */
  function NamespacedDoc(): seq<Event>
  {
    [StartDoc, Start(QName("", "root")), Start(QName("urn:a", "r")), End(QName("urn:a", "r")),
     End(QName("", "root")), EndDoc]
  }

  lemma NamespacedDocTree()
    ensures [StartDoc] + Serialize(Element(QName("", "root"), [Element(QName("urn:a", "r"), [])])) + [] + [EndDoc]
            == NamespacedDoc()
  {
    var record := Element(QName("urn:a", "r"), []);
    SerializeOne(record);
    assert Serialize(record) == [Start(QName("urn:a", "r")), End(QName("urn:a", "r"))];
  }

  /** As written, element option r with namespace option urn:a writes
      nothing for NamespacedDoc. */
  lemma NamespacedRecordMissed()
    ensures SplitSpec(Resolve(Some("r"), Some("urn:a"), None), NamespacedDoc()) == Outcome([], None)
  {
    var record := Element(QName("urn:a", "r"), []);
    var c := Resolve(Some("r"), Some("urn:a"), None);
    NamespacedDocTree();
    SplitWellFormed(c, [StartDoc], QName("", "root"), [record], []);
    assert !Matches(c, 1, Start(QName("urn:a", "r")));
    assert RecordsIn(c, record, 1) == [];
    assert Records(c, [record], 1) == RecordsIn(c, record, 1) + Records(c, [], 1);
  }

  /** With the constructor arguments in parameter order, the same options
      write the one element of NamespacedDoc. */
  lemma NamespacedRecordFound()
    ensures SplitSpec(Criteria(None, IntendedRecordQName(Some("r"), Some("urn:a"))), NamespacedDoc())
            == Outcome([[StartDoc, Start(QName("urn:a", "r")), End(QName("urn:a", "r")), EndDoc]], None)
  {
    var record := Element(QName("urn:a", "r"), []);
    var c := Criteria(None, IntendedRecordQName(Some("r"), Some("urn:a")));
    NamespacedDocTree();
    SplitWellFormed(c, [StartDoc], QName("", "root"), [record], []);
    assert Serialize(record) == [Start(QName("urn:a", "r")), End(QName("urn:a", "r"))];
    assert c.name == Some(QName("urn:a", "r"));
    assert Matches(c, 1, Start(QName("urn:a", "r")));
    assert RecordsIn(c, record, 1) == [[StartDoc] + Serialize(record) + [EndDoc]];
    assert Records(c, [record], 1) == RecordsIn(c, record, 1) + Records(c, [], 1);
    assert [StartDoc] + Serialize(record) + [EndDoc] == [StartDoc, Start(QName("urn:a", "r")), End(QName("urn:a", "r")), EndDoc];
  }
}
