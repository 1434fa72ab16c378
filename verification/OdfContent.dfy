/**
 * The acceptor for the XML events of an ODF content.xml
 * (adapters/onlyoffice/src/routes.rs, validate_odf_content_xml).
 *
 * The source walks the tokeniser's events with a depth and four flags.  The
 * reference is a grammar: a document is a prolog, one element tree and an
 * epilog, and an event list is accepted iff it is the event list of a document.
 */
module OdfContent {
  import opened Prelude

  const MAX_NESTING: nat := 256

  /** Element events carry whether the element passes validate_odf_element, end tags whether their prefix is bound. */
  datatype XmlEvent =
    | Start(allowed: bool)
    | Empty(allowed: bool)
    | End(known: bool)
    | DocType
    | Decl
    | Text(bytes: seq<Byte>)
    | CData
    | Comment
    | PI
    | Reference(name: seq<Byte>)

  predicate Whitespace(b: Byte) { b == 32 || b == 9 || b == 10 || b == 12 || b == 13 }

  predicate Blank(bytes: seq<Byte>) { forall i | 0 <= i < |bytes| :: Whitespace(bytes[i]) }

  predicate Digit(b: Byte) { 48 <= b <= 57 }

  /** amp, lt, gt, apos, quot, or a decimal or hexadecimal character reference */
  predicate AllowedReference(name: seq<Byte>) {
    || name in {[97, 109, 112], [108, 116], [103, 116], [97, 112, 111, 115], [113, 117, 111, 116]}
    || (|name| > 1 && name[0] == 35 && forall i | 1 <= i < |name| :: Digit(name[i]))
    || (|name| > 2 && name[0] == 35 && name[1] == 120 && forall i | 2 <= i < |name| :: HexDigit(name[i]))
  }

  /** A prefix, then at least one of the given digits and nothing else. */
  predicate PrefixedDigits(name: seq<Byte>, prefix: string, digits: string)
    requires IsAscii(prefix) && IsAscii(digits)
  {
    && |prefix| < |name| && Ascii(prefix) == name[..|prefix|]
    && forall i | |prefix| <= i < |name| :: name[i] in Ascii(digits)
  }

  lemma DigitIff(b: Byte)
    ensures Digit(b) <==> b in Ascii("0123456789")
  {
    var digits := Ascii("0123456789");
    if Digit(b) { assert digits[b - 48] == b; }
  }

  /** The predefined entities and the character references, spelt out. */
  lemma AllowedReferenceIff(name: seq<Byte>)
    ensures AllowedReference(name) <==>
      || name in {Ascii("amp"), Ascii("lt"), Ascii("gt"), Ascii("apos"), Ascii("quot")}
      || PrefixedDigits(name, "#", "0123456789") || PrefixedDigits(name, "#x", "0123456789abcdefABCDEF")
  {
    NamedReferences();
    forall b: Byte ensures Digit(b) <==> b in Ascii("0123456789") { DigitIff(b); }
    forall b: Byte ensures HexDigit(b) <==> b in Ascii("0123456789abcdefABCDEF") { HexDigitIff(b); }
    assert Ascii("#") == [35] && Ascii("#x") == [35, 120];
  }

  lemma NamedReferences()
    ensures Ascii("amp") == [97, 109, 112] && Ascii("lt") == [108, 116] && Ascii("gt") == [103, 116]
    ensures Ascii("apos") == [97, 112, 111, 115] && Ascii("quot") == [113, 117, 111, 116]
  {
  }

  /** Blank text is spaces, tabs, line feeds, carriage returns and form feeds. */
  lemma BlankIff(bytes: seq<Byte>)
    ensures Blank(bytes) <==> forall i | 0 <= i < |bytes| :: bytes[i] in Ascii(" \t\n\r") || bytes[i] == 0x0C
  {
    assert Ascii(" \t\n\r") == [32, 9, 10, 13];
  }

  // ---- The grammar --------------------------------------------------------------------

  datatype Node =
    | Element(children: seq<Node>)
    | EmptyElement
    | Characters(bytes: seq<Byte>)
    | CDataSection
    | CommentNode
    | Instruction
    | ReferenceNode(name: seq<Byte>)

  function Events(node: Node): seq<XmlEvent>
    decreases node, 1
  {
    match node
    case Element(children) => [Start(true)] + EventsOf(children) + [End(true)]
    case EmptyElement => [Empty(true)]
    case Characters(bytes) => [Text(bytes)]
    case CDataSection => [CData]
    case CommentNode => [Comment]
    case Instruction => [PI]
    case ReferenceNode(name) => [Reference(name)]
  }

  function EventsOf(nodes: seq<Node>): seq<XmlEvent>
    decreases nodes, 0
  {
    if nodes == [] then [] else Events(nodes[0]) + EventsOf(nodes[1..])
  }

  /** A tree with allowed references, whose elements with content nest at most `levels` deep. */
  predicate Fits(node: Node, levels: nat)
    decreases node, 1
  {
    match node
    case Element(children) => levels > 0 && AllFit(children, levels - 1)
    case ReferenceNode(name) => AllowedReference(name)
    case _ => true
  }

  predicate AllFit(nodes: seq<Node>, levels: nat)
    decreases nodes, 0
  {
    nodes != [] ==> Fits(nodes[0], levels) && AllFit(nodes[1..], levels)
  }

  /** What may stand outside the root. */
  predicate Misc(e: XmlEvent) { e.Comment? || e.PI? || (e.Text? && Blank(e.bytes)) }

  predicate AllMisc(es: seq<XmlEvent>) { forall i | 0 <= i < |es| :: Misc(es[i]) }

  /** Before the root: a declaration only where nothing but empty text precedes it. */
  predicate Prolog(es: seq<XmlEvent>) {
    || AllMisc(es)
    || exists k | 0 <= k < |es| :: DeclaredAt(es, k)
  }

  predicate DeclaredAt(es: seq<XmlEvent>, k: nat)
    requires k < |es|
  {
    es[k].Decl? && (forall i | 0 <= i < k :: es[i] == Text([])) && AllMisc(es[k + 1..])
  }

  ghost predicate IsDocument(es: seq<XmlEvent>) {
    exists prolog: seq<XmlEvent>, root: Node, epilog: seq<XmlEvent> :: Parts(es, prolog, root, epilog)
  }

  predicate Parts(es: seq<XmlEvent>, prolog: seq<XmlEvent>, root: Node, epilog: seq<XmlEvent>) {
    && es == prolog + Events(root) + epilog
    && Prolog(prolog) && (root.Element? || root.EmptyElement?) && Fits(root, MAX_NESTING) && AllMisc(epilog)
  }

  // ---- The acceptor -------------------------------------------------------------------------

  datatype State = State(depth: nat, rootSeen: bool, rootClosed: bool, declarationSeen: bool, declarationAllowed: bool)

  const START: State := State(0, false, false, false, true)

  function Step(s: State, e: XmlEvent): Option<State> {
    match e
    case Start(allowed) =>
      if (s.depth == 0 && (s.rootSeen || s.rootClosed)) || s.depth + 1 > MAX_NESTING || !allowed then None
      else Some(s.(depth := s.depth + 1, rootSeen := s.rootSeen || s.depth == 0, declarationAllowed := false))
    case Empty(allowed) =>
      if (s.depth == 0 && (s.rootSeen || s.rootClosed)) || !allowed then None
      else if s.depth == 0 then Some(s.(rootSeen := true, rootClosed := true, declarationAllowed := false))
      else Some(s.(declarationAllowed := false))
    case End(known) =>
      if s.depth == 0 || !known then None
      else Some(s.(depth := s.depth - 1, rootClosed := s.rootClosed || s.depth == 1, declarationAllowed := false))
    case DocType => None
    case Decl =>
      if s.declarationSeen || !s.declarationAllowed || s.rootSeen then None
      else Some(s.(declarationSeen := true, declarationAllowed := false))
    case Text(bytes) =>
      if s.depth == 0 && !Blank(bytes) then None
      else Some(s.(declarationAllowed := s.declarationAllowed && bytes == []))
    case CData => if s.depth == 0 then None else Some(s.(declarationAllowed := false))
    case Comment => Some(s.(declarationAllowed := false))
    case PI => Some(s.(declarationAllowed := false))
    case Reference(name) =>
      if s.depth == 0 || !AllowedReference(name) then None else Some(s.(declarationAllowed := false))
  }

  /** The rest of the events is accepted from a state. */
  predicate Accepts(s: State, es: seq<XmlEvent>)
    decreases |es|
  {
    if es == [] then s.rootSeen && s.rootClosed && s.depth == 0
    else Step(s, es[0]).Some? && Accepts(Step(s, es[0]).value, es[1..])
  }

  /**
   * The source's loop.  `tokenised` is whether the tokeniser reached the end
   * without an error, `within` whether the size limit was not exhausted.
   */
  method ValidateOdfContent(events: seq<XmlEvent>, tokenised: bool, within: bool) returns (ok: bool)
    ensures ok <==> tokenised && within && IsDocument(events)
  {
    AcceptsIffDocument(events);
    var depth, rootSeen, rootClosed, declarationSeen, declarationAllowed := 0, false, false, false, true;
    for k := 0 to |events|
      invariant depth >= 0
      invariant Accepts(START, events)
        == Accepts(State(depth, rootSeen, rootClosed, declarationSeen, declarationAllowed), events[k..])
    {
      assert events[k..][0] == events[k] && events[k..][1..] == events[k + 1..];
      match events[k]
      case Start(allowed) =>
        declarationAllowed := false;
        if depth == 0 {
          if rootSeen || rootClosed { return false; }
          rootSeen := true;
        }
        var nextDepth := depth + 1;
        if nextDepth > MAX_NESTING { return false; }
        if !allowed { return false; }
        depth := nextDepth;
      case Empty(allowed) =>
        declarationAllowed := false;
        if depth == 0 {
          if rootSeen || rootClosed { return false; }
          rootSeen, rootClosed := true, true;
        }
        if !allowed { return false; }
      case End(known) =>
        declarationAllowed := false;
        if depth == 0 || !known { return false; }
        depth := depth - 1;
        if depth == 0 { rootClosed := true; }
      case DocType => return false;
      case Decl =>
        if declarationSeen || !declarationAllowed || rootSeen { return false; }
        declarationSeen, declarationAllowed := true, false;
      case Text(bytes) =>
        if bytes != [] { declarationAllowed := false; }
        if depth == 0 && !Blank(bytes) { return false; }
      case CData =>
        if depth == 0 { return false; }
        declarationAllowed := false;
      case Comment => declarationAllowed := false;
      case PI => declarationAllowed := false;
      case Reference(name) =>
        declarationAllowed := false;
        if depth == 0 || !AllowedReference(name) { return false; }
    }
    ok := tokenised && rootSeen && rootClosed && depth == 0 && within;
  }

  // ---- A document is accepted -----------------------------------------------------------------

  /** Inside the root, at a depth. */
  function Inside(depth: nat, declared: bool): State { State(depth, true, false, declared, false) }

  /** After the root. */
  function Closed(declared: bool): State { State(0, true, true, declared, false) }

  function AfterEnd(depth: nat, declared: bool): State
    requires depth > 0
  {
    if depth == 1 then Closed(declared) else Inside(depth - 1, declared)
  }

  lemma {:induction false} AcceptsNode(depth: nat, declared: bool, node: Node, rest: seq<XmlEvent>)
    requires 0 < depth <= MAX_NESTING && Fits(node, MAX_NESTING - depth)
    ensures Accepts(Inside(depth, declared), Events(node) + rest) == Accepts(Inside(depth, declared), rest)
    decreases node, 1
  {
    var es := Events(node) + rest;
    match node
    case Element(children) =>
      var body := EventsOf(children) + ([End(true)] + rest);
      assert es[0] == Start(true) && es[1..] == body;
      AcceptsNodes(depth + 1, declared, children, [End(true)] + rest);
      assert ([End(true)] + rest)[1..] == rest;
    case _ =>
      assert es[1..] == rest;
  }

  lemma {:induction false} AcceptsNodes(depth: nat, declared: bool, nodes: seq<Node>, rest: seq<XmlEvent>)
    requires 0 < depth <= MAX_NESTING && AllFit(nodes, MAX_NESTING - depth)
    ensures Accepts(Inside(depth, declared), EventsOf(nodes) + rest) == Accepts(Inside(depth, declared), rest)
    decreases nodes, 0
  {
    if nodes == [] {
      assert EventsOf(nodes) + rest == rest;
    } else {
      assert EventsOf(nodes) + rest == Events(nodes[0]) + (EventsOf(nodes[1..]) + rest);
      AcceptsNode(depth, declared, nodes[0], EventsOf(nodes[1..]) + rest);
      AcceptsNodes(depth, declared, nodes[1..], rest);
    }
  }

  lemma AcceptsRoot(declared: bool, early: bool, root: Node, rest: seq<XmlEvent>)
    requires (root.Element? || root.EmptyElement?) && Fits(root, MAX_NESTING)
    ensures Accepts(State(0, false, false, declared, early), Events(root) + rest) == Accepts(Closed(declared), rest)
  {
    var es := Events(root) + rest;
    if root.Element? {
      var body := EventsOf(root.children) + ([End(true)] + rest);
      assert es[0] == Start(true) && es[1..] == body;
      AcceptsNodes(1, declared, root.children, [End(true)] + rest);
      assert ([End(true)] + rest)[1..] == rest;
    } else {
      assert es[1..] == rest;
    }
  }

  lemma {:induction false} AcceptsEpilog(declared: bool, es: seq<XmlEvent>)
    ensures Accepts(Closed(declared), es) <==> AllMisc(es)
    decreases |es|
  {
    if es != [] {
      AcceptsEpilog(declared, es[1..]);
      assert forall i | 1 <= i < |es| :: es[i] == es[1..][i - 1];
      assert AllMisc(es) <==> Misc(es[0]) && AllMisc(es[1..]);
    }
  }

  /** The prolog read from the front: `early` while only empty text was seen. */
  predicate PrologFrom(es: seq<XmlEvent>, early: bool) {
    es == [] ||
    (if es[0].Decl? then early && AllMisc(es[1..])
     else Misc(es[0]) && PrologFrom(es[1..], early && es[0] == Text([])))
  }

  lemma {:induction false} PrologFromIff(es: seq<XmlEvent>)
    ensures PrologFrom(es, true) <==> Prolog(es)
    ensures PrologFrom(es, false) <==> AllMisc(es)
    decreases |es|
  {
    if es != [] {
      PrologFromIff(es[1..]);
      AllMiscStep(es);
      PrologStep(es);
    }
  }

  lemma AllMiscStep(es: seq<XmlEvent>)
    requires es != []
    ensures AllMisc(es) <==> Misc(es[0]) && AllMisc(es[1..])
  {
    assert forall i | 1 <= i < |es| :: es[i] == es[1..][i - 1];
  }

  lemma PrologStep(es: seq<XmlEvent>)
    requires es != []
    ensures es[0].Decl? ==> (Prolog(es) <==> AllMisc(es[1..]))
    ensures es[0] == Text([]) ==> (Prolog(es) <==> Prolog(es[1..]))
    ensures !es[0].Decl? && es[0] != Text([]) ==> (Prolog(es) <==> AllMisc(es))
  {
    var tail := es[1..];
    AllMiscStep(es);
    if es[0].Decl? {
      assert DeclaredAt(es, 0) <==> AllMisc(tail);
      forall k | 1 <= k < |es| ensures !DeclaredAt(es, k) { assert es[0] != Text([]); }
    } else if es[0] == Text([]) {
      forall k | 0 <= k < |tail| ensures DeclaredAt(es, k + 1) <==> DeclaredAt(tail, k) { DeclaredLater(es, k); }
      assert !DeclaredAt(es, 0);
      if Prolog(es) && !AllMisc(es) {
        var k :| 0 <= k < |es| && DeclaredAt(es, k);
        assert k > 0 && DeclaredAt(tail, k - 1);
      }
      if Prolog(tail) && !AllMisc(tail) {
        var k :| 0 <= k < |tail| && DeclaredAt(tail, k);
        assert DeclaredAt(es, k + 1);
      }
    } else {
      forall k | 0 <= k < |es| ensures !DeclaredAt(es, k) { assert k > 0 ==> es[0] != Text([]); }
    }
  }

  lemma DeclaredLater(es: seq<XmlEvent>, k: nat)
    requires es != [] && es[0] == Text([]) && k < |es| - 1
    ensures DeclaredAt(es, k + 1) <==> DeclaredAt(es[1..], k)
  {
    var tail := es[1..];
    assert es[k + 2..] == tail[k + 1..];
    assert forall i | 1 <= i < |es| :: es[i] == tail[i - 1];
    assert forall i | 0 <= i < |tail| :: tail[i] == es[i + 1];
  }

  lemma {:induction false} AcceptsProlog(declared: bool, early: bool, prolog: seq<XmlEvent>, rest: seq<XmlEvent>)
    requires PrologFrom(prolog, early) && (declared ==> !early)
    requires forall d, l :: Accepts(State(0, false, false, d, l), rest)
    ensures Accepts(State(0, false, false, declared, early), prolog + rest)
    decreases |prolog|
  {
    if prolog == [] {
      assert prolog + rest == rest;
    } else {
      var es := prolog + rest;
      assert es[0] == prolog[0] && es[1..] == prolog[1..] + rest;
      if prolog[0].Decl? {
        PrologFromIff(prolog[1..]);
        AcceptsProlog(true, false, prolog[1..], rest);
      } else {
        AcceptsProlog(declared, early && prolog[0] == Text([]), prolog[1..], rest);
      }
    }
  }

  lemma DocumentIsAccepted(es: seq<XmlEvent>, prolog: seq<XmlEvent>, root: Node, epilog: seq<XmlEvent>)
    requires Parts(es, prolog, root, epilog)
    ensures Accepts(START, es)
  {
    var rest := Events(root) + epilog;
    forall d, l ensures Accepts(State(0, false, false, d, l), rest) {
      AcceptsEpilog(d, epilog);
      AcceptsRoot(d, l, root, epilog);
    }
    PrologFromIff(prolog);
    AcceptsProlog(false, true, prolog, rest);
    assert prolog + rest == es;
  }

  // ---- What is accepted is a document ----------------------------------------------------------

  /** The node that a single event stands for. */
  function Leaf(e: XmlEvent): Node
    requires !e.Start? && !e.End? && !e.DocType? && !e.Decl?
  {
    match e
    case Empty(_) => EmptyElement
    case Text(bytes) => Characters(bytes)
    case CData => CDataSection
    case Comment => CommentNode
    case PI => Instruction
    case Reference(name) => ReferenceNode(name)
  }

  /** Inside an element, accepted events start with the element's content and its end tag. */
  lemma {:induction false} Content(depth: nat, declared: bool, es: seq<XmlEvent>)
      returns (children: seq<Node>, rest: seq<XmlEvent>)
    requires 0 < depth <= MAX_NESTING && Accepts(Inside(depth, declared), es)
    ensures es == EventsOf(children) + [End(true)] + rest
    ensures AllFit(children, MAX_NESTING - depth)
    ensures Accepts(AfterEnd(depth, declared), rest)
    ensures |rest| < |es|
    decreases |es|, 1
  {
    if es[0].End? {
      children, rest := [], es[1..];
      assert es == [es[0]] + rest;
    } else {
      var node, after := FirstNode(depth, declared, es);
      var siblings;
      siblings, rest := Content(depth, declared, after);
      children := [node] + siblings;
      Joined(node, siblings, after, rest);
    }
  }

  lemma {:induction false} FirstNode(depth: nat, declared: bool, es: seq<XmlEvent>)
      returns (node: Node, after: seq<XmlEvent>)
    requires 0 < depth <= MAX_NESTING && es != [] && !es[0].End? && Accepts(Inside(depth, declared), es)
    ensures es == Events(node) + after && |after| < |es|
    ensures Fits(node, MAX_NESTING - depth)
    ensures Accepts(Inside(depth, declared), after)
    decreases |es|, 0
  {
    if es[0].Start? {
      var children;
      children, after := Content(depth + 1, declared, es[1..]);
      node := Element(children);
      assert es == [es[0]] + es[1..];
      assert es == [Start(true)] + (EventsOf(children) + [End(true)] + after);
    } else {
      node, after := Leaf(es[0]), es[1..];
      assert es == [es[0]] + after;
    }
  }

  lemma Joined(node: Node, siblings: seq<Node>, after: seq<XmlEvent>, rest: seq<XmlEvent>)
    requires after == EventsOf(siblings) + [End(true)] + rest
    ensures Events(node) + after == EventsOf([node] + siblings) + [End(true)] + rest
  {
    assert ([node] + siblings)[1..] == siblings;
  }

  /** Before the root, accepted events are a prolog, a root and an epilog. */
  lemma {:induction false} Outline(declared: bool, early: bool, es: seq<XmlEvent>)
      returns (prolog: seq<XmlEvent>, root: Node, epilog: seq<XmlEvent>)
    requires Accepts(State(0, false, false, declared, early), es) && (declared ==> !early)
    ensures es == prolog + Events(root) + epilog
    ensures PrologFrom(prolog, early) && (root.Element? || root.EmptyElement?)
    ensures Fits(root, MAX_NESTING) && AllMisc(epilog)
    decreases |es|
  {
    var e, tail := es[0], es[1..];
    assert es == [e] + tail;
    if e.Start? {
      var children;
      children, epilog := Content(1, declared, tail);
      prolog, root := [], Element(children);
      AcceptsEpilog(declared, epilog);
    } else if e.Empty? {
      prolog, root, epilog := [], EmptyElement, tail;
      AcceptsEpilog(declared, epilog);
    } else {
      var next := Step(State(0, false, false, declared, early), e).value;
      prolog, root, epilog := Outline(next.declarationSeen, next.declarationAllowed, tail);
      if e.Decl? { PrologFromIff(prolog); }
      assert ([e] + prolog)[1..] == prolog;
      prolog := [e] + prolog;
    }
  }

  /** The acceptor accepts exactly the event lists of documents. */
  lemma AcceptsIffDocument(es: seq<XmlEvent>)
    ensures Accepts(START, es) <==> IsDocument(es)
  {
    if Accepts(START, es) {
      var prolog, root, epilog := Outline(false, true, es);
      PrologFromIff(prolog);
      assert Parts(es, prolog, root, epilog);
    }
    forall prolog, root, epilog | Parts(es, prolog, root, epilog) ensures Accepts(START, es) {
      DocumentIsAccepted(es, prolog, root, epilog);
    }
  }
}
