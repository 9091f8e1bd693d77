/** Criteria resolution and the record test: which start elements begin a
    record. */
module Matching {
  import opened XmlEvents

  /** The resolved criteria: an optional required depth, compared with the
      depth before the start element is counted, and an optional record name. */
  datatype Criteria = Criteria(depth: Option<int>, name: Option<QName>)

  /** The record name as constructQName builds it. A name criterion exists
      exactly when the element option is present and non-empty. With a
      non-empty namespace option the two-argument QName constructor, whose
      parameters are (namespace URI, local part), receives the element option
      first, so the element string becomes the namespace URI and the namespace
      string the local part; otherwise the one-argument constructor gives the
      element string as local part in no namespace. */
  function RecordQName(element: Option<string>, namespace: Option<string>): (r: Option<QName>)
    ensures r.Some? <==> element.Some? && |element.value| > 0
    ensures r.Some? && namespace.Some? && |namespace.value| > 0 ==>
              r.value.namespaceURI == element.value && r.value.localPart == namespace.value
    ensures r.Some? && !(namespace.Some? && |namespace.value| > 0) ==>
              r.value.namespaceURI == "" && r.value.localPart == element.value
  {
    if element.Some? && |element.value| > 0 then
      if namespace.Some? && |namespace.value| > 0 then Some(QName(element.value, namespace.value))
      else Some(QName("", element.value))
    else None
  }

  /** The record name with the constructor's arguments in the order its
      parameters declare: namespace URI first, local part second. */
  function IntendedRecordQName(element: Option<string>, namespace: Option<string>): (r: Option<QName>)
    ensures r.Some? <==> element.Some? && |element.value| > 0
    ensures r.Some? ==> r.value.localPart == element.value
    ensures r.Some? ==> r.value.namespaceURI == (if namespace.Some? then namespace.value else "")
  {
    if element.Some? && |element.value| > 0 then
      if namespace.Some? && |namespace.value| > 0 then Some(QName(namespace.value, element.value))
      else Some(QName("", element.value))
    else None
  }

  /** checkParams: the name criterion from the element and namespace options;
      the supplied depth is kept, and when there is neither a name nor a
      depth the depth becomes 1 (direct children of the root). */
  function Resolve(element: Option<string>, namespace: Option<string>, suppliedDepth: Option<int>): (c: Criteria)
    ensures c.name == RecordQName(element, namespace)
    ensures c.depth.Some? || c.name.Some?
    ensures suppliedDepth.Some? ==> c.depth == suppliedDepth
    ensures c.name.Some? ==> c.depth == suppliedDepth
    ensures c.name.None? && suppliedDepth.None? ==> c.depth == Some(1)
  {
    var name := RecordQName(element, namespace);
    if name.None? && suppliedDepth.None? then Criteria(Some(1), name) else Criteria(suppliedDepth, name)
  }

  /** The record test: `e` begins a record when it is a start element, its
      depth before counting it equals the required depth (if any), and its
      name equals the record name (if any). */
  predicate Matches(c: Criteria, startDepth: int, e: Event)
  {
    e.Start? &&
    (c.depth.None? || c.depth.value == startDepth) &&
    (c.name.None? || c.name.value == e.name)
  }

  /** Without an element option and without a depth, exactly the start
      elements directly under the root (depth 1 before them) begin records. */
  lemma DefaultMatchesRootChildren(namespace: Option<string>, startDepth: int, e: Event)
    ensures Matches(Resolve(None, namespace, None), startDepth, e) <==> e.Start? && startDepth == 1
    ensures Matches(Resolve(Some(""), namespace, None), startDepth, e) <==> e.Start? && startDepth == 1
  {
  }

  /** As written, a non-empty namespace option makes the record name miss the
      element it describes: the element `local` in namespace `ns` is never a
      record when the two strings differ. */
  lemma SwappedRecordNameMisses(local: string, ns: string, depth: Option<int>, startDepth: int)
    requires |local| > 0 && |ns| > 0 && local != ns
    ensures !Matches(Resolve(Some(local), Some(ns), depth), startDepth, Start(QName(ns, local)))
  {
  }

  /** Instead the element whose namespace URI is the element option and whose
      local part is the namespace option is the one taken as a record. */
  lemma SwappedRecordNameExample()
    ensures Matches(Resolve(Some("foo"), Some("urn:a"), None), 3, Start(QName("foo", "urn:a")))
    ensures !Matches(Resolve(Some("foo"), Some("urn:a"), None), 3, Start(QName("urn:a", "foo")))
  {
  }

  /** With the arguments in parameter order, the element `local` in namespace
      `ns` (or in no namespace when `ns` is empty) is matched at the required
      depth, and no other name is. */
  lemma IntendedRecordNameMatches(local: string, ns: string, depth: Option<int>, startDepth: int, q: QName)
    requires |local| > 0
    requires depth.None? || depth.value == startDepth
    ensures Matches(Criteria(depth, IntendedRecordQName(Some(local), Some(ns))), startDepth, Start(q))
            <==> q == QName(ns, local)
  {
  }
}
