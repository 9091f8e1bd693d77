/** The structural events the splitter reads, the depth tracker's arithmetic,
    and a tree view of well-formed element content used as a reference when
    stating what the splitter produces. */
module XmlEvents {

  datatype Option<+T> = None | Some(value: T)

  /** A qualified name: namespace URI ("" for an element in no namespace) and
      local part. Two names are equal when both parts are equal; the prefix
      plays no part in equality and is not modelled. */
  datatype QName = QName(namespaceURI: string, localPart: string)

  /** One event of the forward-only stream. Character data, comments,
      processing instructions and whitespace are all `Other`; attributes and
      namespace declarations travel with `Start` and are never inspected. */
  datatype Event = StartDoc | EndDoc | Start(name: QName) | End(name: QName) | Other

  /** How far reading `e` moves the depth counter. */
  function Delta(e: Event): int
  {
    if e.Start? then 1 else if e.End? then -1 else 0
  }

  /** The depth tracker: the counter after reading `e`. */
  function Step(depth: int, e: Event): int
  {
    depth + Delta(e)
  }

  /** The counter after reading `s[m - 1]`, when it stood at `depth` just
      after reading `s[j]`: every event in between moves it by one step. */
  function Track(s: seq<Event>, j: nat, m: nat, depth: int): int
    requires j < m <= |s|
    decreases m
  {
    if m == j + 1 then depth else Step(Track(s, j, m - 1, depth), s[m - 1])
  }

  /** Counting from one event later, with that event already counted. */
  lemma {:induction false} TrackShift(s: seq<Event>, j: nat, m: nat, depth: int)
    requires j + 1 < m <= |s|
    ensures Track(s, j, m, depth) == Track(s, j + 1, m, Step(depth, s[j + 1]))
    decreases m
  {
    if m > j + 2 {
      TrackShift(s, j, m - 1, depth);
    }
  }

  /** A piece of a slice that is known is known too. */
  lemma SliceWithin<T>(s: seq<T>, i: nat, t: seq<T>, a: nat, b: nat)
    requires i + |t| <= |s| && s[i..i + |t|] == t && a <= b <= |t|
    ensures s[i + a..i + b] == t[a..b]
  {
    forall k | 0 <= k < b - a
      ensures s[i + a..i + b][k] == t[a..b][k]
    {
      assert s[i + a + k] == s[i..i + |t|][a + k];
    }
  }

  /** A slice is the slice one shorter followed by its last element. */
  lemma SliceSnoc<T>(s: seq<T>, a: nat, b: nat)
    requires a < b <= |s|
    ensures s[a..b] == s[a..b - 1] + [s[b - 1]]
  {
  }

  /** Well-nested element content, read with `open` the names of the elements
      still open (innermost first): every end element closes the innermost
      open one, no document marker occurs, and nothing is left open. */
  predicate Nest(open: seq<QName>, s: seq<Event>)
    decreases |s|
  {
    if s == [] then open == []
    else match s[0]
      case Start(q) => Nest([q] + open, s[1..])
      case End(q) => open != [] && open[0] == q && Nest(open[1..], s[1..])
      case Other => Nest(open, s[1..])
      case StartDoc => false
      case EndDoc => false
  }

  predicate WellNested(s: seq<Event>)
  {
    Nest([], s)
  }

  /** Element content as a tree: an element with its children, or a leaf
      (character data, a comment, a processing instruction). */
  datatype Node = Element(name: QName, children: seq<Node>) | Leaf

  /** The events a streaming parser reports for a node, in document order. */
  function Serialize(n: Node): seq<Event>
    decreases n
  {
    match n
    case Leaf => [Other]
    case Element(q, cs) => [Start(q)] + SerializeAll(cs) + [End(q)]
  }

  function SerializeAll(ns: seq<Node>): seq<Event>
    decreases ns
  {
    if ns == [] then [] else Serialize(ns[0]) + SerializeAll(ns[1..])
  }

  /** A serialized node leaves the open elements exactly as it found them. */
  lemma {:induction false} NestSerialize(n: Node, open: seq<QName>, rest: seq<Event>)
    ensures Nest(open, Serialize(n) + rest) == Nest(open, rest)
    decreases n
  {
    match n
    case Leaf =>
      assert ([Other] + rest)[1..] == rest;
    case Element(q, cs) =>
      var inner := SerializeAll(cs);
      var s := Serialize(n) + rest;
      assert s == [Start(q)] + (inner + ([End(q)] + rest));
      assert s[1..] == inner + ([End(q)] + rest);
      NestSerializeAll(cs, [q] + open, [End(q)] + rest);
      assert ([End(q)] + rest)[1..] == rest;
      assert ([q] + open)[1..] == open;
  }

  lemma {:induction false} NestSerializeAll(ns: seq<Node>, open: seq<QName>, rest: seq<Event>)
    ensures Nest(open, SerializeAll(ns) + rest) == Nest(open, rest)
    decreases ns
  {
    if ns != [] {
      assert SerializeAll(ns) + rest == Serialize(ns[0]) + (SerializeAll(ns[1..]) + rest);
      NestSerialize(ns[0], open, SerializeAll(ns[1..]) + rest);
      NestSerializeAll(ns[1..], open, rest);
    } else {
      assert SerializeAll(ns) + rest == rest;
    }
  }

  /** Every serialized node, and every serialized run of siblings, is well nested. */
  lemma SerializedIsWellNested(n: Node, ns: seq<Node>)
    ensures WellNested(Serialize(n)) && WellNested(SerializeAll(ns))
  {
    NestSerialize(n, [], []);
    assert Serialize(n) + [] == Serialize(n);
    NestSerializeAll(ns, [], []);
    assert SerializeAll(ns) + [] == SerializeAll(ns);
  }
}
