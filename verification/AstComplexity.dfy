/**
 * Validation of a normalised document tree under a complexity budget
 * (ui/markdown/source/ast-validation.ts).
 *
 * The source copies the budget down to the children of every node and merges
 * the node count back afterwards.  The reference is plain: the tree has the
 * right shape, its levels and its nodes are within the limits.
 */
module AstComplexity {
  import opened Prelude

  const MAXIMUM_NODES: nat := 100_000
  const MAXIMUM_DEPTH: nat := 64
  const MAXIMUM_STRING_UNITS: nat := 8_388_608
  const MAXIMUM_WIDTH: nat := 1_024

  /** A value of unknown shape. */
  datatype Value =
    | Undefined
    | Null
    | Boolean(flag: bool)
    | Integer(number: int)
    | OtherNumber
    | Str(text: string)  // one character for each UTF-16 code unit, which is what the limits count
    | List(items: seq<Value>)
    | Record(fields: map<string, Value>)
  {
    function Get(key: string): Value { if Record? && key in fields then fields[key] else Undefined }

    function Items(key: string): seq<Value> { if Get(key).List? then Get(key).items else [] }

    predicate HasOnly(keys: set<string>) { Record? && fields.Keys == keys }
  }

  // ---- Checks that look at one node only ----------------------------------------------

  predicate IsRange(v: Value) {
    && v.HasOnly({"End", "Start"})
    && v.Get("Start").Integer? && v.Get("End").Integer?
    && 0 <= v.Get("Start").number <= v.Get("End").number <= MAXIMUM_STRING_UNITS
  }

  /** A string without zeros, of at most a given length. */
  predicate IsText(v: Value, maximum: nat) {
    v.Str? && |v.text| <= maximum && '\0' !in v.text
  }

  /** An optional second string of a node; both together stay within the unit limit. */
  predicate IsOptionalText(v: Value, maximum: nat, first: Value)
    requires first.Str?
  {
    v.Null? || (IsText(v, maximum) && |first.text| + |v.text| <= MAXIMUM_STRING_UNITS)
  }

  predicate IsArray(v: Value) { v.List? && |v.items| <= MAXIMUM_NODES }

  predicate IsOneOf(v: Value, allowed: set<string>) { v.Str? && v.text in allowed }

  predicate IsHex(c: char) { '0' <= c <= '9' || 'a' <= c <= 'f' || 'A' <= c <= 'F' }

  predicate IsUuid(v: Value) {
    && v.Str? && |v.text| == 36
    && (forall i | 0 <= i < 36 ::
          if i == 8 || i == 13 || i == 18 || i == 23 then v.text[i] == '-' else IsHex(v.text[i]))
    && '1' <= v.text[14] <= '5' && v.text[19] in {'8', '9', 'a', 'b', 'A', 'B'}
  }

  predicate IsReference(v: Value) {
    && v.HasOnly(if v.Get("VersionId").Undefined? then {"DriveId", "NodeId"} else {"DriveId", "NodeId", "VersionId"})
    && IsUuid(v.Get("DriveId")) && IsUuid(v.Get("NodeId"))
    && (v.Get("VersionId").Undefined? || IsUuid(v.Get("VersionId")))
  }

  datatype BlockKind =
    | Alert | Code | FootnoteDefinition | Heading | ListBlock | Math
    | Mermaid | Paragraph | Quote | Table | ThematicBreak

  function BlockKindOf(v: Value): Option<BlockKind> {
    if !v.Str? then None
    else match v.text
      case "alert" => Some(Alert)
      case "code" => Some(Code)
      case "footnoteDefinition" => Some(FootnoteDefinition)
      case "heading" => Some(Heading)
      case "list" => Some(ListBlock)
      case "math" => Some(Math)
      case "mermaid" => Some(Mermaid)
      case "paragraph" => Some(Paragraph)
      case "quote" => Some(Quote)
      case "table" => Some(Table)
      case "thematicBreak" => Some(ThematicBreak)
      case _ => None
  }

  datatype InlineKind = CodeText | Emphasis | FileBeltLink | FootnoteReference | Link

  function InlineKindOf(v: Value): Option<InlineKind> {
    if !v.Str? then None
    else match v.text
      case "code" => Some(CodeText)
      case "text" => Some(CodeText)
      case "emphasis" => Some(Emphasis)
      case "strong" => Some(Emphasis)
      case "filebeltLink" => Some(FileBeltLink)
      case "footnoteReference" => Some(FootnoteReference)
      case "link" => Some(Link)
      case _ => None
  }

  predicate BlockShape(v: Value, kind: BlockKind) {
    match kind
    case Alert =>
      && v.HasOnly({"Children", "Kind", "Range", "Severity"})
      && IsOneOf(v.Get("Severity"), {"caution", "important", "note", "tip", "warning"})
      && IsArray(v.Get("Children"))
    case Code =>
      && v.HasOnly({"Code", "Kind", "Language", "Range"})
      && IsText(v.Get("Code"), MAXIMUM_STRING_UNITS)
      && IsOptionalText(v.Get("Language"), 256, v.Get("Code"))
    case FootnoteDefinition =>
      && v.HasOnly({"Children", "Identifier", "Kind", "Range"})
      && IsText(v.Get("Identifier"), 1_024) && IsArray(v.Get("Children"))
    case Heading =>
      && v.HasOnly({"Children", "Depth", "Kind", "Range"})
      && v.Get("Depth").Integer? && 1 <= v.Get("Depth").number <= 6 && IsArray(v.Get("Children"))
    case ListBlock =>
      v.HasOnly({"Items", "Kind", "Ordered", "Range"}) && v.Get("Ordered").Boolean? && IsArray(v.Get("Items"))
    case Math => v.HasOnly({"Expression", "Kind", "Range"}) && IsText(v.Get("Expression"), 65_536)
    case Mermaid => v.HasOnly({"Kind", "Range", "Source"}) && IsText(v.Get("Source"), 65_536)
    case Paragraph => v.HasOnly({"Children", "Kind", "Range"}) && IsArray(v.Get("Children"))
    case Quote => v.HasOnly({"Children", "Kind", "Range"}) && IsArray(v.Get("Children"))
    case Table =>
      && v.HasOnly({"Align", "Kind", "Range", "Rows"})
      && v.Get("Align").List? && |v.Get("Align").items| <= MAXIMUM_WIDTH
      && (forall i | 0 <= i < |v.Get("Align").items| ::
            var align := v.Get("Align").items[i]; align.Null? || IsOneOf(align, {"center", "left", "right"}))
      && IsArray(v.Get("Rows"))
    case ThematicBreak => v.HasOnly({"Kind", "Range"})
  }

  predicate InlineShape(v: Value, kind: InlineKind) {
    match kind
    case CodeText => v.HasOnly({"Kind", "Range", "Text"}) && IsText(v.Get("Text"), MAXIMUM_STRING_UNITS)
    case Emphasis => v.HasOnly({"Children", "Kind", "Range"}) && IsArray(v.Get("Children"))
    case FileBeltLink =>
      && v.HasOnly({"Kind", "Range", "Target", "Title"}) && IsReference(v.Get("Target"))
      && IsOptionalText(v.Get("Title"), 1_024, Str(""))
    case FootnoteReference => v.HasOnly({"Identifier", "Kind", "Range"}) && IsText(v.Get("Identifier"), 1_024)
    case Link =>
      && v.HasOnly({"Children", "Destination", "Kind", "Range", "Title"})
      && IsText(v.Get("Destination"), 8_192)
      && IsOptionalText(v.Get("Title"), 1_024, v.Get("Destination"))
      && IsArray(v.Get("Children"))
  }

  // ---- The reference -------------------------------------------------------------------

  /** What a node is checked as. */
  datatype Role = Block | Inline | Item | Row

  predicate Local(role: Role, v: Value) {
    && v.Record? && IsRange(v.Get("Range"))
    && match role
       case Block => BlockKindOf(v.Get("Kind")).Some? && BlockShape(v, BlockKindOf(v.Get("Kind")).value)
       case Inline => InlineKindOf(v.Get("Kind")).Some? && InlineShape(v, InlineKindOf(v.Get("Kind")).value)
       case Item =>
         && v.HasOnly({"Checked", "Children", "Range"})
         && (v.Get("Checked").Null? || v.Get("Checked").Boolean?) && IsArray(v.Get("Children"))
       case Row =>
         && v.HasOnly({"Cells", "Range"})
         && v.Get("Cells").List? && |v.Get("Cells").items| <= MAXIMUM_WIDTH
  }

  /** What the children of a node are checked as. */
  function ChildRole(role: Role, v: Value): Role {
    match role
    case Block =>
      (match BlockKindOf(v.Get("Kind"))
       case Some(Heading) => Inline
       case Some(Paragraph) => Inline
       case Some(ListBlock) => Item
       case Some(Table) => Row
       case _ => Block)
    case Inline => Inline
    case Item => Block
    case Row => Inline
  }

  /** The children of a node other than a table row. */
  function Children(role: Role, v: Value): seq<Value> {
    match role
    case Block =>
      (match BlockKindOf(v.Get("Kind"))
       case Some(Alert) => v.Items("Children")
       case Some(FootnoteDefinition) => v.Items("Children")
       case Some(Heading) => v.Items("Children")
       case Some(Paragraph) => v.Items("Children")
       case Some(Quote) => v.Items("Children")
       case Some(ListBlock) => v.Items("Items")
       case Some(Table) => v.Items("Rows")
       case _ => [])
    case Inline =>
      (match InlineKindOf(v.Get("Kind"))
       case Some(Emphasis) => v.Items("Children")
       case Some(Link) => v.Items("Children")
       case _ => [])
    case Item => v.Items("Children")
    case Row => []
  }

  /** The whole tree has the right shape. */
  predicate Shaped(role: Role, v: Value)
    decreases v, 2
  {
    && Local(role, v)
    && (role.Row? && v.Items("Cells") != [] ==> CellsShaped(v.Items("Cells")))
    && (Children(role, v) != [] ==> AllShaped(ChildRole(role, v), Children(role, v)))
  }

  predicate AllShaped(role: Role, vs: seq<Value>)
    decreases vs, 0
  {
    vs != [] ==> Shaped(role, vs[0]) && AllShaped(role, vs[1..])
  }

  predicate CellsShaped(cells: seq<Value>)
    decreases cells, 1
  {
    cells != [] ==>
      cells[0].List? && IsArray(cells[0]) && AllShaped(Inline, cells[0].items) && CellsShaped(cells[1..])
  }

  /** The number of nodes in a tree; a cell of a row is not a node. */
  function Count(role: Role, v: Value): (n: nat)
    ensures n >= 1
    decreases v, 2
  {
    if role.Row? && v.Items("Cells") != [] then 1 + CountCells(v.Items("Cells"))
    else if Children(role, v) != [] then 1 + CountAll(ChildRole(role, v), Children(role, v))
    else 1
  }

  function CountAll(role: Role, vs: seq<Value>): nat
    decreases vs, 0
  {
    if vs == [] then 0 else Count(role, vs[0]) + CountAll(role, vs[1..])
  }

  function CountCells(cells: seq<Value>): nat
    decreases cells, 1
  {
    if cells == [] then 0
    else (if cells[0].List? then CountAll(Inline, cells[0].items) else 0) + CountCells(cells[1..])
  }

  function Max(a: nat, b: nat): nat { if a < b then b else a }

  /** The number of node levels in a tree. */
  function Height(role: Role, v: Value): (n: nat)
    ensures n >= 1
    decreases v, 2
  {
    if role.Row? && v.Items("Cells") != [] then 1 + HeightCells(v.Items("Cells"))
    else if Children(role, v) != [] then 1 + HeightAll(ChildRole(role, v), Children(role, v))
    else 1
  }

  function HeightAll(role: Role, vs: seq<Value>): nat
    decreases vs, 0
  {
    if vs == [] then 0 else Max(Height(role, vs[0]), HeightAll(role, vs[1..]))
  }

  function HeightCells(cells: seq<Value>): nat
    decreases cells, 1
  {
    if cells == [] then 0
    else Max(if cells[0].List? then HeightAll(Inline, cells[0].items) else 0, HeightCells(cells[1..]))
  }

  /** A tree of a given shape, size and height fits below a level and behind some nodes. */
  predicate Within(shaped: bool, count: nat, height: nat, depth: nat, nodes: nat) {
    shaped && depth + height <= MAXIMUM_DEPTH && nodes + count <= MAXIMUM_NODES
  }

  // ---- The budget -----------------------------------------------------------------------

  class Budget {
    var depth: nat
    var nodes: nat
    var stringUnits: nat

    constructor (depth: nat, nodes: nat, stringUnits: nat)
      ensures this.depth == depth && this.nodes == nodes && this.stringUnits == stringUnits
    {
      this.depth, this.nodes, this.stringUnits := depth, nodes, stringUnits;
    }

    /** Enter */
    method Enter(v: Value) returns (ok: bool)
      modifies this`nodes
      ensures ok == (v.Record? && depth < MAXIMUM_DEPTH && old(nodes) < MAXIMUM_NODES)
      ensures nodes == old(nodes) + if ok then 1 else 0
    {
      if !v.Record? || depth >= MAXIMUM_DEPTH || nodes >= MAXIMUM_NODES { return false; }
      nodes := nodes + 1;
      return true;
    }

    /** Leave: whatever was charged to this budget since the copy is overwritten. */
    method Leave(nested: Budget)
      modifies this`nodes, this`stringUnits
      ensures nodes == nested.nodes && stringUnits == nested.stringUnits
    {
      nodes := nested.nodes;
      stringUnits := nested.stringUnits;
    }

    /** TakeString */
    method TakeString(v: Value, maximum: nat) returns (ok: bool)
      modifies this`stringUnits
      ensures ok == (IsText(v, maximum) && old(stringUnits) + |v.text| <= MAXIMUM_STRING_UNITS)
      ensures ok ==> stringUnits == old(stringUnits) + |v.text|
    {
      if !v.Str? || |v.text| > maximum || '\0' in v.text { return false; }
      stringUnits := stringUnits + |v.text|;
      return stringUnits <= MAXIMUM_STRING_UNITS;
    }

    /** A second string that may be null. */
    method TakeOptional(v: Value, maximum: nat) returns (ok: bool)
      modifies this`stringUnits
      ensures ok == (v.Null? || (IsText(v, maximum) && old(stringUnits) + |v.text| <= MAXIMUM_STRING_UNITS))
    {
      if v.Null? { return true; }
      ok := TakeString(v, maximum);
    }
  }

  /** The part of IsBlock before it looks at the children. */
  method CheckBlock(v: Value, kind: BlockKind, budget: Budget) returns (ok: bool)
    requires budget.stringUnits == 0
    modifies budget`stringUnits
    ensures ok == BlockShape(v, kind)
  {
    match kind
    case Code =>
      ok := v.HasOnly({"Code", "Kind", "Language", "Range"});
      if ok { ok := budget.TakeString(v.Get("Code"), MAXIMUM_STRING_UNITS); }
      if ok { ok := budget.TakeOptional(v.Get("Language"), 256); }
    case FootnoteDefinition =>
      ok := v.HasOnly({"Children", "Identifier", "Kind", "Range"});
      if ok { ok := budget.TakeString(v.Get("Identifier"), 1_024); }
      if ok { ok := IsArray(v.Get("Children")); }
    case Math =>
      ok := v.HasOnly({"Expression", "Kind", "Range"});
      if ok { ok := budget.TakeString(v.Get("Expression"), 65_536); }
    case Mermaid =>
      ok := v.HasOnly({"Kind", "Range", "Source"});
      if ok { ok := budget.TakeString(v.Get("Source"), 65_536); }
    case Alert =>
      ok := v.HasOnly({"Children", "Kind", "Range", "Severity"});
      if ok { ok := IsOneOf(v.Get("Severity"), {"caution", "important", "note", "tip", "warning"}); }
      if ok { ok := IsArray(v.Get("Children")); }
    case Heading =>
      ok := v.HasOnly({"Children", "Depth", "Kind", "Range"}) && v.Get("Depth").Integer?;
      if ok { ok := 1 <= v.Get("Depth").number <= 6 && IsArray(v.Get("Children")); }
    case ListBlock =>
      ok := v.HasOnly({"Items", "Kind", "Ordered", "Range"});
      if ok { ok := v.Get("Ordered").Boolean? && IsArray(v.Get("Items")); }
    case Paragraph => ok := v.HasOnly({"Children", "Kind", "Range"}) && IsArray(v.Get("Children"));
    case Quote => ok := v.HasOnly({"Children", "Kind", "Range"}) && IsArray(v.Get("Children"));
    case Table =>
      ok := v.HasOnly({"Align", "Kind", "Range", "Rows"}) && v.Get("Align").List?;
      if ok { ok := CheckAlignments(v.Get("Align").items); }
      if ok { ok := IsArray(v.Get("Rows")); }
    case ThematicBreak => ok := v.HasOnly({"Kind", "Range"});
  }

  method CheckAlignments(alignments: seq<Value>) returns (ok: bool)
    ensures ok <==> |alignments| <= MAXIMUM_WIDTH && forall i | 0 <= i < |alignments| ::
      alignments[i].Null? || IsOneOf(alignments[i], {"center", "left", "right"})
  {
    if |alignments| > MAXIMUM_WIDTH { return false; }
    for k := 0 to |alignments|
      invariant forall i | 0 <= i < k ::
        alignments[i].Null? || IsOneOf(alignments[i], {"center", "left", "right"})
    {
      if !alignments[k].Null? && !IsOneOf(alignments[k], {"center", "left", "right"}) { return false; }
    }
    return true;
  }

  /** The part of IsInline before it looks at the children. */
  method CheckInline(v: Value, kind: InlineKind, budget: Budget) returns (ok: bool)
    requires budget.stringUnits == 0
    modifies budget`stringUnits
    ensures ok == InlineShape(v, kind)
  {
    match kind
    case CodeText =>
      ok := v.HasOnly({"Kind", "Range", "Text"});
      if ok { ok := budget.TakeString(v.Get("Text"), MAXIMUM_STRING_UNITS); }
    case FileBeltLink =>
      ok := v.HasOnly({"Kind", "Range", "Target", "Title"}) && IsReference(v.Get("Target"));
      if ok { ok := budget.TakeOptional(v.Get("Title"), 1_024); }
    case FootnoteReference =>
      ok := v.HasOnly({"Identifier", "Kind", "Range"});
      if ok { ok := budget.TakeString(v.Get("Identifier"), 1_024); }
    case Link =>
      ok := v.HasOnly({"Children", "Destination", "Kind", "Range", "Title"});
      if ok { ok := budget.TakeString(v.Get("Destination"), 8_192); }
      if ok { ok := budget.TakeOptional(v.Get("Title"), 1_024); }
      if ok { ok := IsArray(v.Get("Children")); }
    case Emphasis => ok := v.HasOnly({"Children", "Kind", "Range"}) && IsArray(v.Get("Children"));
  }

  /** The checks of IsBlock, IsInline, IsListItem and IsTableRow on the node itself, after Enter. */
  method CheckLocal(role: Role, v: Value, budget: Budget) returns (ok: bool)
    requires v.Record? && budget.stringUnits == 0
    modifies budget`stringUnits
    ensures ok == Local(role, v)
  {
    if !IsRange(v.Get("Range")) { return false; }
    match role
    case Block =>
      var kind := BlockKindOf(v.Get("Kind"));
      if kind.None? { return false; }
      ok := CheckBlock(v, kind.value, budget);
    case Inline =>
      var kind := InlineKindOf(v.Get("Kind"));
      if kind.None? { return false; }
      ok := CheckInline(v, kind.value, budget);
    case Item =>
      if !v.HasOnly({"Checked", "Children", "Range"}) { return false; }
      var checked := v.Get("Checked");
      ok := (checked.Null? || checked.Boolean?) && IsArray(v.Get("Children"));
    case Row =>
      if !v.HasOnly({"Cells", "Range"}) { return false; }
      ok := v.Get("Cells").List? && |v.Get("Cells").items| <= MAXIMUM_WIDTH;
  }

  /**
   * IsBlock, IsInline, IsListItem and IsTableRow, which share this outline: enter
   * the node, check it, check its children under a copy of the budget one level
   * down, and merge the count back.
   */
  method Check(role: Role, v: Value, budget: Budget) returns (ok: bool)
    requires budget.stringUnits == 0 && budget.depth <= MAXIMUM_DEPTH
    modifies budget`nodes, budget`stringUnits
    ensures ok == Within(Shaped(role, v), Count(role, v), Height(role, v), budget.depth, old(budget.nodes))
    ensures ok ==> budget.nodes == old(budget.nodes) + Count(role, v) && budget.stringUnits == 0
    decreases v, 2
  {
    var entered := budget.Enter(v);
    if !entered { return false; }
    var nested := new Budget(budget.depth + 1, budget.nodes, budget.stringUnits);
    ok := CheckLocal(role, v, budget);
    if ok {
      if role.Row? && v.Items("Cells") != [] {
        ok := EveryCell(v.Items("Cells"), nested);
      } else if Children(role, v) != [] {
        ok := Every(ChildRole(role, v), Children(role, v), nested);
      }
    }
    budget.Leave(nested);
  }

  lemma Unroll(role: Role, values: seq<Value>, k: nat)
    requires k < |values|
    ensures AllShaped(role, values[k..]) <==> Shaped(role, values[k]) && AllShaped(role, values[k + 1..])
    ensures CountAll(role, values[k..]) == Count(role, values[k]) + CountAll(role, values[k + 1..])
    ensures HeightAll(role, values[k..]) == Max(Height(role, values[k]), HeightAll(role, values[k + 1..]))
  {
    assert values[k..][0] == values[k] && values[k..][1..] == values[k + 1..];
  }

  /** IsArrayOf: every child in turn, against one shared budget. */
  method Every(role: Role, values: seq<Value>, budget: Budget) returns (ok: bool)
    requires budget.stringUnits == 0 && budget.depth <= MAXIMUM_DEPTH && budget.nodes <= MAXIMUM_NODES
    modifies budget`nodes, budget`stringUnits
    ensures ok == Within(AllShaped(role, values), CountAll(role, values), HeightAll(role, values),
                         budget.depth, old(budget.nodes))
    ensures ok ==> budget.nodes == old(budget.nodes) + CountAll(role, values) && budget.stringUnits == 0
    decreases values, 0
  {
    var k := 0;
    while k < |values|
      invariant 0 <= k <= |values|
      invariant budget.stringUnits == 0 && old(budget.nodes) <= budget.nodes <= MAXIMUM_NODES
      invariant budget.nodes + CountAll(role, values[k..]) == old(budget.nodes) + CountAll(role, values)
      invariant AllShaped(role, values) == AllShaped(role, values[k..])
      invariant budget.depth + HeightAll(role, values) <= MAXIMUM_DEPTH
        <==> budget.depth + HeightAll(role, values[k..]) <= MAXIMUM_DEPTH
    {
      Unroll(role, values, k);
      ok := Check(role, values[k], budget);
      if !ok { return false; }
      k := k + 1;
    }
    assert values[k..] == [];
    return true;
  }

  /** The cells of a row, each an array of inline nodes. */
  method EveryCell(cells: seq<Value>, budget: Budget) returns (ok: bool)
    requires budget.stringUnits == 0 && budget.depth <= MAXIMUM_DEPTH && budget.nodes <= MAXIMUM_NODES
    modifies budget`nodes, budget`stringUnits
    ensures ok == Within(CellsShaped(cells), CountCells(cells), HeightCells(cells), budget.depth, old(budget.nodes))
    ensures ok ==> budget.nodes == old(budget.nodes) + CountCells(cells) && budget.stringUnits == 0
    decreases cells, 1
  {
    var k := 0;
    while k < |cells|
      invariant 0 <= k <= |cells|
      invariant budget.stringUnits == 0 && old(budget.nodes) <= budget.nodes <= MAXIMUM_NODES
      invariant budget.nodes + CountCells(cells[k..]) == old(budget.nodes) + CountCells(cells)
      invariant CellsShaped(cells) == CellsShaped(cells[k..])
      invariant budget.depth + HeightCells(cells) <= MAXIMUM_DEPTH
        <==> budget.depth + HeightCells(cells[k..]) <= MAXIMUM_DEPTH
    {
      assert cells[k..][0] == cells[k] && cells[k..][1..] == cells[k + 1..];
      if !IsArray(cells[k]) { return false; }
      ok := Every(Inline, cells[k].items, budget);
      if !ok { return false; }
      k := k + 1;
    }
    assert cells[k..] == [];
    return true;
  }

  predicate RootShape(v: Value) {
    && v.HasOnly({"Children", "Profile", "Range"})
    && v.Get("Profile") == Str("filebelt-gfm-v1") && v.Get("Children").List? && IsRange(v.Get("Range"))
  }

  /** A document: well shaped, at most 64 levels below the root and 100,000 nodes with the root. */
  predicate IsDocument(v: Value) {
    && RootShape(v) && AllShaped(Block, v.Items("Children"))
    && HeightAll(Block, v.Items("Children")) <= MAXIMUM_DEPTH
    && 1 + CountAll(Block, v.Items("Children")) <= MAXIMUM_NODES
  }

  /** IsFileBeltOfficeAstV1 */
  method IsOfficeAst(v: Value) returns (ok: bool)
    ensures ok <==> IsDocument(v)
  {
    if !RootShape(v) { return false; }
    var budget := new Budget(0, 1, 0);
    ok := Every(Block, v.Items("Children"), budget);
  }

  // ---- The nodes of an accepted document, whatever their kind -----------------------------

  /** Every node from a value down, with its level: below any record, its children, items, rows and cell contents. */
  function Nodes(v: Value, level: nat): (nodes: seq<(Value, nat)>)
    decreases v, 2
  {
    [(v, level)]
    + (if v.Items("Children") != [] then NodesOf(v.Items("Children"), level + 1) else [])
    + (if v.Items("Items") != [] then NodesOf(v.Items("Items"), level + 1) else [])
    + (if v.Items("Rows") != [] then NodesOf(v.Items("Rows"), level + 1) else [])
    + (if v.Items("Cells") != [] then NodesOfCells(v.Items("Cells"), level + 1) else [])
  }

  function NodesOf(vs: seq<Value>, level: nat): seq<(Value, nat)>
    decreases vs, 0
  {
    if vs == [] then [] else Nodes(vs[0], level) + NodesOf(vs[1..], level)
  }

  function NodesOfCells(cells: seq<Value>, level: nat): seq<(Value, nat)>
    decreases cells, 1
  {
    if cells == [] then []
    else (if cells[0].List? then NodesOf(cells[0].items, level) else []) + NodesOfCells(cells[1..], level)
  }

  /** The keys of a node of each kind. */
  lemma KeysOfBlockKind(v: Value)
    ensures Local(Block, v) ==> v.Get("Kind").Str? && match v.Get("Kind").text
      case "alert" => v.HasOnly({"Children", "Kind", "Range", "Severity"})
      case "code" => v.HasOnly({"Code", "Kind", "Language", "Range"})
      case "footnoteDefinition" => v.HasOnly({"Children", "Identifier", "Kind", "Range"})
      case "heading" => v.HasOnly({"Children", "Depth", "Kind", "Range"})
      case "list" => v.HasOnly({"Items", "Kind", "Ordered", "Range"})
      case "math" => v.HasOnly({"Expression", "Kind", "Range"})
      case "mermaid" => v.HasOnly({"Kind", "Range", "Source"})
      case "paragraph" => v.HasOnly({"Children", "Kind", "Range"})
      case "quote" => v.HasOnly({"Children", "Kind", "Range"})
      case "table" => v.HasOnly({"Align", "Kind", "Range", "Rows"})
      case "thematicBreak" => v.HasOnly({"Kind", "Range"})
      case _ => false
  {
  }

  lemma KeysOfInlineKind(v: Value)
    ensures Local(Inline, v) ==> v.Get("Kind").Str? && match v.Get("Kind").text
      case "code" => v.HasOnly({"Kind", "Range", "Text"})
      case "text" => v.HasOnly({"Kind", "Range", "Text"})
      case "emphasis" => v.HasOnly({"Children", "Kind", "Range"})
      case "strong" => v.HasOnly({"Children", "Kind", "Range"})
      case "filebeltLink" => v.HasOnly({"Kind", "Range", "Target", "Title"})
      case "footnoteReference" => v.HasOnly({"Identifier", "Kind", "Range"})
      case "link" => v.HasOnly({"Children", "Destination", "Kind", "Range", "Title"})
      case _ => false
  {
  }

  /** The keys of a node leave one list below it at most. */
  lemma OneList(role: Role, v: Value)
    requires Local(role, v)
    ensures v.Items("Children") + v.Items("Items") + v.Items("Rows") == Children(role, v)
    ensures v.Items("Children") != [] ==> v.Items("Items") == [] && v.Items("Rows") == []
    ensures v.Items("Items") != [] ==> v.Items("Rows") == []
    ensures if role.Row? then Children(role, v) == [] else v.Items("Cells") == []
  {
    match role
    case Block => BlockLists(v);
    case Inline => InlineLists(v);
    case _ =>
  }

  lemma BlockLists(v: Value)
    requires Local(Block, v)
    ensures v.Items("Cells") == []
    ensures Children(Block, v) == v.Items("Children") + v.Items("Items") + v.Items("Rows")
    ensures v.Items("Children") != [] ==> v.Items("Items") == [] && v.Items("Rows") == []
    ensures v.Items("Items") != [] ==> v.Items("Rows") == []
  {
  }

  lemma InlineLists(v: Value)
    requires Local(Inline, v)
    ensures v.Items("Items") == [] && v.Items("Rows") == [] && v.Items("Cells") == []
    ensures Children(Inline, v) == v.Items("Children")
  {
  }

  /** A node that passes the checks of some role. */
  ghost predicate IsNode(v: Value) { exists role :: Local(role, v) }

  /** The nodes of a tree are counted, locally right and on so many levels; the last level is not empty. */
  ghost predicate Covered(nodes: seq<(Value, nat)>, count: nat, height: nat, level: nat) {
    && |nodes| == count && (height == 0 <==> nodes == [])
    && (forall i | 0 <= i < |nodes| :: level <= nodes[i].1 < level + height && IsNode(nodes[i].0))
    && (nodes != [] ==> exists i :: 0 <= i < |nodes| && nodes[i].1 == level + height - 1)
  }

  lemma CoveredJoin(a: seq<(Value, nat)>, b: seq<(Value, nat)>, m: nat, n: nat, h: nat, k: nat, level: nat)
    requires Covered(a, m, h, level) && Covered(b, n, k, level)
    ensures Covered(a + b, m + n, Max(h, k), level)
  {
    var nodes := a + b;
    if nodes != [] {
      if h >= k {
        var i :| 0 <= i < |a| && a[i].1 == level + h - 1;
        assert nodes[i].1 == level + h - 1;
      } else {
        var i :| 0 <= i < |b| && b[i].1 == level + k - 1;
        assert nodes[|a| + i].1 == level + k - 1;
      }
    }
  }

  lemma CoveredBelow(v: Value, nodes: seq<(Value, nat)>, n: nat, h: nat, level: nat)
    requires IsNode(v) && Covered(nodes, n, h, level + 1)
    ensures Covered([(v, level)] + nodes, 1 + n, 1 + h, level)
  {
    var all := [(v, level)] + nodes;
    assert all[0] == (v, level);
    if nodes != [] {
      var i :| 0 <= i < |nodes| && nodes[i].1 == level + h;
      assert all[1 + i].1 == level + h;
    }
  }

  /** A well-shaped tree has as many nodes and levels as the role-by-role reference says. */
  lemma {:induction false} ShapedIsCovered(role: Role, v: Value, level: nat)
    requires Shaped(role, v)
    ensures Covered(Nodes(v, level), Count(role, v), Height(role, v), level)
    decreases v, 2
  {
    var children, cells, below := Children(role, v), v.Items("Cells"), ChildRole(role, v);
    if role.Row? {
      if cells != [] { CellsAreCovered(cells, level + 1); }
    } else if children != [] {
      AllAreCovered(below, children, level + 1);
    }
    CoveredNode(role, v, level);
  }

  lemma CoveredNode(role: Role, v: Value, level: nat)
    requires Shaped(role, v)
    requires var cells := v.Items("Cells"); role.Row? && cells != [] ==>
      Covered(NodesOfCells(cells, level + 1), CountCells(cells), HeightCells(cells), level + 1)
    requires var children, below := Children(role, v), ChildRole(role, v); !role.Row? && children != [] ==>
      Covered(NodesOf(children, level + 1), CountAll(below, children), HeightAll(below, children), level + 1)
    ensures Covered(Nodes(v, level), Count(role, v), Height(role, v), level)
  {
    var children, cells, below := Children(role, v), v.Items("Cells"), ChildRole(role, v);
    NodesOfOneList(role, v, level);
    Unfolds(role, v);
    if role.Row? {
      CoveredBelow(v, NodesOfCells(cells, level + 1), CountCells(cells), HeightCells(cells), level);
    } else {
      CoveredBelow(v, NodesOf(children, level + 1), CountAll(below, children), HeightAll(below, children), level);
    }
  }

  lemma Unfolds(role: Role, v: Value)
    requires Shaped(role, v)
    ensures IsNode(v)
    ensures role.Row? ==>
      && CellsShaped(v.Items("Cells"))
      && Count(role, v) == 1 + CountCells(v.Items("Cells")) && Height(role, v) == 1 + HeightCells(v.Items("Cells"))
    ensures !role.Row? ==>
      && AllShaped(ChildRole(role, v), Children(role, v))
      && Count(role, v) == 1 + CountAll(ChildRole(role, v), Children(role, v))
      && Height(role, v) == 1 + HeightAll(ChildRole(role, v), Children(role, v))
  {
  }

  lemma NodesOfOneList(role: Role, v: Value, level: nat)
    requires Local(role, v)
    ensures Nodes(v, level) == [(v, level)] +
      if role.Row? then NodesOfCells(v.Items("Cells"), level + 1) else NodesOf(Children(role, v), level + 1)
  {
    OneList(role, v);
    NodesOfLists(v, v.Items("Children"), v.Items("Items"), v.Items("Rows"), v.Items("Cells"), level);
  }

  lemma NodesOfLists(v: Value, a: seq<Value>, b: seq<Value>, c: seq<Value>, cells: seq<Value>, level: nat)
    requires a == v.Items("Children") && b == v.Items("Items") && c == v.Items("Rows") && cells == v.Items("Cells")
    requires a != [] ==> b == [] && c == []
    requires b != [] ==> c == []
    requires a + b + c != [] ==> cells == []
    ensures Nodes(v, level) == [(v, level)] + NodesOf(a + b + c, level + 1) + NodesOfCells(cells, level + 1)
  {
    if a != [] {
      assert a + b + c == a;
    } else if b != [] {
      assert a + b + c == b;
    } else {
      assert a + b + c == c;
    }
  }

  lemma {:induction false} AllAreCovered(role: Role, vs: seq<Value>, level: nat)
    requires AllShaped(role, vs)
    ensures Covered(NodesOf(vs, level), CountAll(role, vs), HeightAll(role, vs), level)
    decreases vs, 0
  {
    if vs != [] {
      ShapedIsCovered(role, vs[0], level);
      AllAreCovered(role, vs[1..], level);
      CoveredJoin(Nodes(vs[0], level), NodesOf(vs[1..], level), Count(role, vs[0]), CountAll(role, vs[1..]),
                  Height(role, vs[0]), HeightAll(role, vs[1..]), level);
    }
  }

  lemma {:induction false} CellsAreCovered(cells: seq<Value>, level: nat)
    requires CellsShaped(cells)
    ensures Covered(NodesOfCells(cells, level), CountCells(cells), HeightCells(cells), level)
    decreases cells, 1
  {
    if cells != [] {
      AllAreCovered(Inline, cells[0].items, level);
      CellsAreCovered(cells[1..], level);
      CoveredJoin(NodesOf(cells[0].items, level), NodesOfCells(cells[1..], level),
                  CountAll(Inline, cells[0].items), CountCells(cells[1..]),
                  HeightAll(Inline, cells[0].items), HeightCells(cells[1..]), level);
    }
  }

  /**
   * A well-shaped document is accepted iff it has at most 100,000 nodes with the root, none
   * deeper than level 64, counting every node reached through any list of any record.
   */
  lemma AcceptedIff(v: Value)
    requires RootShape(v) && AllShaped(Block, v.Items("Children"))
    ensures IsDocument(v) <==>
      |Nodes(v, 0)| <= 100_000 && forall i | 0 <= i < |Nodes(v, 0)| :: Nodes(v, 0)[i].1 <= 64
    ensures Nodes(v, 0)[0] == (v, 0)
    ensures forall i | 1 <= i < |Nodes(v, 0)| :: IsNode(Nodes(v, 0)[i].0)
  {
    var blocks := v.Items("Children");
    AllAreCovered(Block, blocks, 1);
    RootNodes(v);
    RootIsCovered(v, NodesOf(blocks, 1), CountAll(Block, blocks), HeightAll(Block, blocks));
  }

  lemma RootIsCovered(v: Value, below: seq<(Value, nat)>, count: nat, height: nat)
    requires Covered(below, count, height, 1)
    ensures var nodes := [(v, 0)] + below;
      && (1 + count <= 100_000 && height <= 64 <==>
          |nodes| <= 100_000 && forall i | 0 <= i < |nodes| :: nodes[i].1 <= 64)
      && forall i | 1 <= i < |nodes| :: IsNode(nodes[i].0)
  {
    var nodes := [(v, 0)] + below;
    assert forall i | 1 <= i < |nodes| :: nodes[i] == below[i - 1];
    if below != [] {
      var i :| 0 <= i < |below| && below[i].1 == height;
      assert nodes[i + 1].1 == height;
    }
  }

  lemma RootNodes(v: Value)
    requires RootShape(v)
    ensures Nodes(v, 0) == [(v, 0)] + NodesOf(v.Items("Children"), 1)
  {
    assert v.Items("Items") == [] && v.Items("Rows") == [] && v.Items("Cells") == [];
  }

  lemma {:induction false} AllShapedIff(role: Role, vs: seq<Value>)
    ensures AllShaped(role, vs) <==> forall i | 0 <= i < |vs| :: Shaped(role, vs[i])
  {
    if vs != [] {
      AllShapedIff(role, vs[1..]);
      assert forall i | 1 <= i < |vs| :: vs[i] == vs[1..][i - 1];
    }
  }

  predicate CellShaped(cell: Value) {
    IsArray(cell) && forall i | 0 <= i < |cell.items| :: Shaped(Inline, cell.items[i])
  }

  lemma {:induction false} CellsShapedIff(cells: seq<Value>)
    ensures CellsShaped(cells) <==> forall i | 0 <= i < |cells| :: CellShaped(cells[i])
  {
    if cells != [] {
      if cells[0].List? { AllShapedIff(Inline, cells[0].items); }
      CellsShapedIff(cells[1..]);
      assert forall i | 1 <= i < |cells| :: cells[i] == cells[1..][i - 1];
    }
  }

  predicate EveryCellShaped(cells: seq<Value>) { forall i | 0 <= i < |cells| :: CellShaped(cells[i]) }

  predicate EveryShaped(role: Role, vs: seq<Value>) { forall i | 0 <= i < |vs| :: Shaped(role, vs[i]) }

  lemma ShapedUnfolds(role: Role, v: Value)
    ensures Shaped(role, v) <==>
      && Local(role, v) && EveryShaped(ChildRole(role, v), Children(role, v))
      && (role.Row? ==> EveryCellShaped(v.Items("Cells")))
  {
    AllShapedIff(ChildRole(role, v), Children(role, v));
    CellsShapedIff(v.Items("Cells"));
  }

  lemma ChildRoles(v: Value)
    requires Local(Block, v)
    ensures v.Items("Children") != [] ==>
      ChildRole(Block, v) == if v.Get("Kind").text in {"heading", "paragraph"} then Inline else Block
    ensures v.Items("Items") != [] ==> ChildRole(Block, v) == Item
    ensures v.Items("Rows") != [] ==> ChildRole(Block, v) == Row
  {
  }

  lemma EveryOfOne(role: Role, a: seq<Value>, b: seq<Value>, c: seq<Value>, x: Role, y: Role, z: Role)
    requires a != [] ==> b == [] && c == [] && role == x
    requires b != [] ==> c == [] && role == y
    requires c != [] ==> role == z
    ensures EveryShaped(role, a + b + c) <==> EveryShaped(x, a) && EveryShaped(y, b) && EveryShaped(z, c)
  {
    if a != [] {
      assert a + b + c == a;
    } else if b != [] {
      assert a + b + c == b;
    } else {
      assert a + b + c == c;
    }
  }

  /**
   * What is checked below a block of each kind: text in headings and paragraphs, items in a
   * list, rows in a table, blocks elsewhere.
   */
  lemma BlockIsShapedIff(v: Value)
    ensures Shaped(Block, v) <==>
      && Local(Block, v)
      && EveryShaped(if v.Get("Kind").text in {"heading", "paragraph"} then Inline else Block, v.Items("Children"))
      && EveryShaped(Item, v.Items("Items")) && EveryShaped(Row, v.Items("Rows"))
  {
    ShapedUnfolds(Block, v);
    if Local(Block, v) {
      OneList(Block, v);
      ChildRoles(v);
      EveryOfOne(ChildRole(Block, v), v.Items("Children"), v.Items("Items"), v.Items("Rows"),
                 if v.Get("Kind").text in {"heading", "paragraph"} then Inline else Block, Item, Row);
    }
  }

  /** Marked text and the cells of a row hold text, and the items of a list hold blocks. */
  lemma OtherIsShapedIff(v: Value)
    ensures Shaped(Inline, v) <==> Local(Inline, v) && EveryShaped(Inline, v.Items("Children"))
    ensures Shaped(Item, v) <==> Local(Item, v) && EveryShaped(Block, v.Items("Children"))
    ensures Shaped(Row, v) <==> Local(Row, v) && EveryCellShaped(v.Items("Cells"))
  {
    ShapedUnfolds(Inline, v);
    ShapedUnfolds(Item, v);
    ShapedUnfolds(Row, v);
    if Local(Inline, v) { InlineLists(v); }
  }

  // ---- The string limit holds for one node only ----------------------------------------

  function EmptyRange(): Value { Record(map["End" := Integer(0), "Start" := Integer(0)]) }

  function TextNode(text: string): Value {
    Record(map["Kind" := Str("text"), "Range" := EmptyRange(), "Text" := Str(text)])
  }

  function ParagraphNode(children: seq<Value>): Value {
    Record(map["Kind" := Str("paragraph"), "Range" := EmptyRange(), "Children" := List(children)])
  }

  function DocumentNode(children: seq<Value>): Value {
    Record(map["Children" := List(children), "Profile" := Str("filebelt-gfm-v1"), "Range" := EmptyRange()])
  }

  lemma TextIsShapedIff(text: string)
    ensures Shaped(Inline, TextNode(text)) <==> IsText(Str(text), MAXIMUM_STRING_UNITS)
    ensures Count(Inline, TextNode(text)) == 1 && Height(Inline, TextNode(text)) == 1
  {
    var v := TextNode(text);
    assert v.Get("Kind") == Str("text");
    assert InlineKindOf(v.Get("Kind")) == Some(CodeText);
    assert v.HasOnly({"Kind", "Range", "Text"});
    assert EmptyRange().HasOnly({"End", "Start"});
    assert v.Get("Text") == Str(text);
  }

  predicate AllTexts(texts: seq<string>) {
    forall i | 0 <= i < |texts| :: IsText(Str(texts[i]), MAXIMUM_STRING_UNITS)
  }

  lemma {:induction false} TextsAreShapedIff(texts: seq<string>)
    ensures AllShaped(Inline, TextNodes(texts)) <==> AllTexts(texts)
    ensures CountAll(Inline, TextNodes(texts)) == |texts| && HeightAll(Inline, TextNodes(texts)) <= 1
  {
    if texts != [] {
      TextIsShapedIff(texts[0]);
      TextsAreShapedIff(texts[1..]);
      var nodes := TextNodes(texts);
      assert nodes[0] == TextNode(texts[0]) && nodes[1..] == TextNodes(texts[1..]);
      assert AllTexts(texts) <==> IsText(Str(texts[0]), MAXIMUM_STRING_UNITS) && AllTexts(texts[1..]) by {
        assert forall i | 1 <= i < |texts| :: texts[i] == texts[1..][i - 1];
      }
    }
  }

  function TextNodes(texts: seq<string>): (nodes: seq<Value>)
    ensures |nodes| == |texts|
  {
    if texts == [] then [] else [TextNode(texts[0])] + TextNodes(texts[1..])
  }

  lemma ParagraphIsLocal(children: seq<Value>)
    requires |children| <= MAXIMUM_NODES
    ensures var v := ParagraphNode(children);
            Local(Block, v) && Children(Block, v) == children && ChildRole(Block, v) == Inline
  {
    var v := ParagraphNode(children);
    assert v.Get("Kind") == Str("paragraph") && v.Get("Children") == List(children);
    assert BlockKindOf(Str("paragraph")) == Some(Paragraph);
    assert v.HasOnly({"Children", "Kind", "Range"});
    assert IsRange(v.Get("Range")) by { assert EmptyRange().HasOnly({"End", "Start"}); }
  }

  lemma ParagraphOfTexts(texts: seq<string>)
    requires |texts| <= MAXIMUM_NODES - 2
    ensures var v := ParagraphNode(TextNodes(texts));
      (Shaped(Block, v) <==> AllTexts(texts)) && Count(Block, v) == 1 + |texts| && Height(Block, v) <= 2
  {
    TextsAreShapedIff(texts);
    ParagraphIsLocal(TextNodes(texts));
    BlockOfInlines(ParagraphNode(TextNodes(texts)), TextNodes(texts));
  }

  lemma BlockOfInlines(v: Value, children: seq<Value>)
    requires Local(Block, v) && Children(Block, v) == children && ChildRole(Block, v) == Inline
    ensures Shaped(Block, v) <==> AllShaped(Inline, children)
    ensures Count(Block, v) == 1 + CountAll(Inline, children) && Height(Block, v) == 1 + HeightAll(Inline, children)
  {
  }

  lemma DocumentOfOne(block: Value)
    ensures var v := DocumentNode([block]);
      && v.Items("Children") == [block] && RootShape(v)
      && (AllShaped(Block, [block]) <==> Shaped(Block, block))
      && CountAll(Block, [block]) == Count(Block, block) && HeightAll(Block, [block]) == Height(Block, block)
  {
    var v := DocumentNode([block]);
    assert v.Get("Children") == List([block]) && v.HasOnly({"Children", "Profile", "Range"});
    assert IsRange(v.Get("Range")) by { assert EmptyRange().HasOnly({"End", "Start"}); }
    assert [block][1..] == [];
  }

  /**
   * The limit on string units is not a limit on the document: Leave overwrites what was
   * charged, so a document of texts is accepted iff each text is within the limit by
   * itself, whatever their sum.
   */
  lemma StringsAreNotAdded(texts: seq<string>)
    requires |texts| <= MAXIMUM_NODES - 2
    ensures IsDocument(DocumentNode([ParagraphNode(TextNodes(texts))])) <==> AllTexts(texts)
  {
    ParagraphOfTexts(texts);
    DocumentOfOne(ParagraphNode(TextNodes(texts)));
  }
}
