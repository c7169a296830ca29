/**
 * The flattened device tree parser of lib/dtb.  The structure block is a sequence of
 * tokens made of four-byte big-endian words; names of properties lie in a strings
 * block.  Malformed input makes the parser panic.
 */
module Fdts {
  import opened Common

  const FDT_BEGIN_NODE: nat := 1
  const FDT_END_NODE: nat := 2
  const FDT_PROP: nat := 3
  const FDT_NOP: nat := 4
  const FDT_END: nat := 9

  type Name = seq<byte>

  datatype Outcome<+T> = Done(value: T) | Panic

  datatype Token = BeginNode(name: Name) | EndNode | Prop(propName: Name, blob: seq<byte>) | End

  // ---------------------------------------------------------------- words and strings

  /** A word as bytes, most significant first. */
  function Word(n: nat): (r: seq<byte>)
    requires n < U32_LIMIT
    ensures |r| == 4
  {
    [(n / 0x100_0000) as byte, (n / 0x1_0000 % 0x100) as byte, (n / 0x100 % 0x100) as byte, (n % 0x100) as byte]
  }

  /** The first word of a block. */
  function ReadWord(b: seq<byte>): (n: nat)
    requires |b| >= 4
    ensures n < U32_LIMIT
  {
    b[0] as nat * 0x100_0000 + b[1] as nat * 0x1_0000 + b[2] as nat * 0x100 + b[3] as nat
  }

  lemma WordSum(n: nat)
    requires n < U32_LIMIT
    ensures n == n / 0x100_0000 * 0x100_0000 + n / 0x1_0000 % 0x100 * 0x1_0000 + n / 0x100 % 0x100 * 0x100 + n % 0x100
  {
    var b := n / 0x100;
    var c := b / 0x100;
    assert n / 0x1_0000 == c;
    assert n / 0x100_0000 == c / 0x100;
  }

  lemma ReadWordOf(n: nat, rest: seq<byte>)
    requires n < U32_LIMIT
    ensures ReadWord(Word(n) + rest) == n
    ensures (Word(n) + rest)[4..] == rest
  {
    var b := Word(n) + rest;
    assert b[0] == Word(n)[0] && b[1] == Word(n)[1] && b[2] == Word(n)[2] && b[3] == Word(n)[3];
    WordSum(n);
  }

  /** How long `n` bytes are in whole words. */
  function Padded(n: nat): (r: nat)
    ensures n <= r < n + 4 && r % 4 == 0
  {
    CeilDiv(n, 4) * 4
  }

  function Zeroes(n: nat): (r: seq<byte>)
    ensures |r| == n
  {
    seq(n, _ => 0)
  }

  function Pad(b: seq<byte>): (r: seq<byte>)
    ensures |r| == Padded(|b|)
  {
    b + Zeroes(Padded(|b|) - |b|)
  }

  /** The length of the string that starts at `from`, if it ends. */
  function StringEnd(b: seq<byte>, from: nat): (r: Option<nat>)
    requires from <= |b|
    ensures r.Some? ==> from <= r.value < |b| && b[r.value] == 0 && forall i | from <= i < r.value :: b[i] != 0
    ensures r.None? ==> forall i | from <= i < |b| :: b[i] != 0
    decreases |b| - from
  {
    if from == |b| then None else if b[from] == 0 then Some(from) else StringEnd(b, from + 1)
  }

  lemma StringEndIs(b: seq<byte>, from: nat, end: nat)
    requires from <= end < |b| && b[end] == 0 && forall i | from <= i < end :: b[i] != 0
    ensures StringEnd(b, from) == Some(end)
  {
  }

  // ---------------------------------------------------------------- tokens

  /** The next token, and what is left after it. */
  function Next(block: seq<byte>, strings: seq<byte>): (r: Outcome<(Token, seq<byte>)>)
    ensures r.Done? && r.value.0 != End ==> |r.value.1| < |block|
    decreases |block|
  {
    if |block| < 4 then Panic
    else
      var raw, rest := ReadWord(block), block[4..];
      if raw == FDT_END then Done((End, block))
      else if raw == FDT_BEGIN_NODE then NextName(rest)
      else if raw == FDT_END_NODE then Done((EndNode, rest))
      else if raw == FDT_PROP then NextProp(rest, strings)
      else if raw == FDT_NOP then Next(rest, strings)
      else Panic
  }

  function NextName(rest: seq<byte>): (r: Outcome<(Token, seq<byte>)>)
    ensures r.Done? ==> r.value.0 != End && |r.value.1| <= |rest|
  {
    match StringEnd(rest, 0)
    case None => Panic
    case Some(n) =>
      if Padded(n + 1) > |rest| then Panic
      else Done((BeginNode(rest[..n]), rest[Padded(n + 1)..]))
  }

  function NextProp(rest: seq<byte>, strings: seq<byte>): (r: Outcome<(Token, seq<byte>)>)
    ensures r.Done? ==> r.value.0 != End && |r.value.1| <= |rest|
  {
    if |rest| < 8 then Panic
    else
      var len, off, data := ReadWord(rest), ReadWord(rest[4..]), rest[8..];
      if |data| < Padded(len) then Panic
      else
        match PropName(strings, off)
        case None => Panic
        case Some(name) => if name == [] then Panic else Done((Prop(name, data[..len]), data[Padded(len)..]))
  }

  function PropName(strings: seq<byte>, off: nat): Option<Name> {
    if off > |strings| then None
    else
      match StringEnd(strings, off)
      case None => None
      case Some(end) => Some(strings[off..end])
  }

  // ---------------------------------------------------------------- nodes

  /** A parsed node; the cells are read from its own properties. */
  datatype Node = Node(name: Name, phandle: Option<nat>, sizeCells: Option<nat>, addrCells: Option<nat>,
                       irqCells: Option<nat>, props: map<Name, seq<byte>>, nodes: map<Name, Node>)

  // "phandle", "#size-cells", "#address-cells", "#interrupt-cells"
  const PHANDLE: Name := [0x70, 0x68, 0x61, 0x6E, 0x64, 0x6C, 0x65]
  const SIZE_CELLS: Name := [0x23, 0x73, 0x69, 0x7A, 0x65, 0x2D, 0x63, 0x65, 0x6C, 0x6C, 0x73]
  const ADDR_CELLS: Name := [0x23, 0x61, 0x64, 0x64, 0x72, 0x65, 0x73, 0x73, 0x2D, 0x63, 0x65, 0x6C, 0x6C, 0x73]
  const IRQ_CELLS: Name :=
    [0x23, 0x69, 0x6E, 0x74, 0x65, 0x72, 0x72, 0x75, 0x70, 0x74, 0x2D, 0x63, 0x65, 0x6C, 0x6C, 0x73]

  /** A property that must be one cell, if it is there. */
  function Cell(props: map<Name, seq<byte>>, name: Name): Outcome<Option<nat>> {
    if name !in props then Done(None)
    else if |props[name]| != 4 then Panic
    else Done(Some(ReadWord(props[name])))
  }

  function Finish(name: Name, props: map<Name, seq<byte>>, nodes: map<Name, Node>): Outcome<Node> {
    var phandle, size := Cell(props, PHANDLE), Cell(props, SIZE_CELLS);
    var addr, irq := Cell(props, ADDR_CELLS), Cell(props, IRQ_CELLS);
    if phandle.Panic? || size.Panic? || addr.Panic? || irq.Panic? then Panic
    else Done(Node(name, phandle.value, size.value, addr.value, irq.value, props, nodes))
  }

  /** The node whose body starts here, with what has been read of it so far. */
  function ParseFrom(block: seq<byte>, strings: seq<byte>, name: Name, props: map<Name, seq<byte>>,
                     nodes: map<Name, Node>)
    : (r: Outcome<(Node, seq<byte>)>)
    ensures r.Done? ==> |r.value.1| < |block|
    decreases |block|
  {
    match Next(block, strings)
    case Panic => Panic
    case Done((token, rest)) =>
      match token
      case End => Panic
      case EndNode => (match Finish(name, props, nodes) case Panic => Panic case Done(node) => Done((node, rest)))
      case Prop(n, blob) => ParseFrom(rest, strings, name, props[n := blob], nodes)
      case BeginNode(n) =>
        match ParseFrom(rest, strings, n, map[], map[])
        case Panic => Panic
        case Done((child, rest')) => ParseFrom(rest', strings, name, props, nodes[n := child])
  }

  // ---------------------------------------------------------------- encoding

  /** What a node's body holds, in order: properties are named by their offset in the strings block. */
  datatype Items = Nil | Cons(head: Item, tail: Items)

  datatype Item = Nop | Property(off: nat, blob: seq<byte>) | Sub(name: Name, items: Items)

  /** The body can be encoded: names end, and numbers fit a word. */
  predicate ItemsOk(items: Items, strings: seq<byte>) {
    items.Cons? ==> ItemOk(items.head, strings) && ItemsOk(items.tail, strings)
  }

  predicate ItemOk(item: Item, strings: seq<byte>) {
    match item
    case Nop => true
    case Property(off, blob) =>
      off < U32_LIMIT && |blob| < U32_LIMIT && PropName(strings, off).Some? && PropName(strings, off).value != []
    case Sub(name, items) => (forall i | 0 <= i < |name| :: name[i] != 0) && ItemsOk(items, strings)
  }

  /** The structure block for a node's body, as in section 5.4 of the Devicetree Specification. */
  function Encode(items: Items, strings: seq<byte>): seq<byte>
    requires ItemsOk(items, strings)
  {
    match items
    case Nil => []
    case Cons(head, tail) => EncodeItem(head, strings) + Encode(tail, strings)
  }

  function EncodeItem(item: Item, strings: seq<byte>): seq<byte>
    requires ItemOk(item, strings)
  {
    match item
    case Nop => Word(FDT_NOP)
    case Property(off, blob) => Word(FDT_PROP) + (Word(|blob|) + (Word(off) + Pad(blob)))
    case Sub(name, items) => Word(FDT_BEGIN_NODE) + (Pad(name + [0]) + (Encode(items, strings) + Word(FDT_END_NODE)))
  }

  /** What the body means: later entries replace earlier ones of the same name. */
  function Meaning(items: Items, strings: seq<byte>, name: Name, props: map<Name, seq<byte>>,
                   nodes: map<Name, Node>): Outcome<Node>
    requires ItemsOk(items, strings)
  {
    match items
    case Nil => Finish(name, props, nodes)
    case Cons(head, tail) =>
      assert ItemOk(head, strings);
      match head
      case Nop => Meaning(tail, strings, name, props, nodes)
      case Property(off, blob) => Meaning(tail, strings, name, props[PropName(strings, off).value := blob], nodes)
      case Sub(n, body) =>
        match Meaning(body, strings, n, map[], map[])
        case Panic => Panic
        case Done(child) => Meaning(tail, strings, name, props, nodes[n := child])
  }

  // ---------------------------------------------------------------- what a body means

  /** The property a name is given last, if any. */
  function LastProp(items: Items, strings: seq<byte>, n: Name): Option<seq<byte>>
    requires ItemsOk(items, strings)
  {
    match items
    case Nil => None
    case Cons(head, tail) =>
      assert ItemOk(head, strings);
      var later := LastProp(tail, strings, n);
      if later.Some? then later
      else if head.Property? && PropName(strings, head.off).value == n then Some(head.blob)
      else None
  }

  /** The body a child of this name is given last, if any. */
  function LastSub(items: Items, n: Name): Option<Items> {
    match items
    case Nil => None
    case Cons(head, tail) =>
      var later := LastSub(tail, n);
      if later.Some? then later else if head.Sub? && head.name == n then Some(head.items) else None
  }

  /** The property is absent or one cell long. */
  predicate OneCell(items: Items, strings: seq<byte>, n: Name)
    requires ItemsOk(items, strings)
  {
    var last := LastProp(items, strings, n);
    last.None? || |last.value| == 4
  }

  /** The tree below a node obeys the rule that these four properties are single cells, in every node. */
  predicate CellsFit(items: Items, strings: seq<byte>)
    requires ItemsOk(items, strings)
    decreases items, 1
  {
    && OneCell(items, strings, PHANDLE) && OneCell(items, strings, SIZE_CELLS)
    && OneCell(items, strings, ADDR_CELLS) && OneCell(items, strings, IRQ_CELLS)
    && ChildrenFit(items, strings)
  }

  predicate ChildrenFit(items: Items, strings: seq<byte>)
    requires ItemsOk(items, strings)
    decreases items, 0
  {
    match items
    case Nil => true
    case Cons(head, tail) =>
      assert ItemOk(head, strings);
      (head.Sub? ==> CellsFit(head.items, strings)) && ChildrenFit(tail, strings)
  }

  /** The value of a property that is one cell, or nothing if it is absent. */
  function CellValue(items: Items, strings: seq<byte>, n: Name): Option<nat>
    requires ItemsOk(items, strings) && OneCell(items, strings, n)
  {
    var last := LastProp(items, strings, n);
    if last.None? then None else Some(ReadWord(last.value))
  }

  /** What a name stands for after the body, given what it stood for before. */
  function PropAfter(items: Items, strings: seq<byte>, props: map<Name, seq<byte>>, n: Name): Option<seq<byte>>
    requires ItemsOk(items, strings)
  {
    var last := LastProp(items, strings, n);
    if last.Some? then last else if n in props then Some(props[n]) else None
  }

  predicate FitsAfter(items: Items, strings: seq<byte>, props: map<Name, seq<byte>>, n: Name)
    requires ItemsOk(items, strings)
  {
    var after := PropAfter(items, strings, props, n);
    after.None? || |after.value| == 4
  }

  predicate AllFitAfter(items: Items, strings: seq<byte>, props: map<Name, seq<byte>>)
    requires ItemsOk(items, strings)
  {
    && FitsAfter(items, strings, props, PHANDLE) && FitsAfter(items, strings, props, SIZE_CELLS)
    && FitsAfter(items, strings, props, ADDR_CELLS) && FitsAfter(items, strings, props, IRQ_CELLS)
  }

  lemma PropAfterStep(off: nat, blob: seq<byte>, tail: Items, strings: seq<byte>, props: map<Name, seq<byte>>, n: Name)
    requires ItemsOk(Cons(Property(off, blob), tail), strings)
    ensures ItemOk(Property(off, blob), strings)
    ensures PropAfter(tail, strings, props[PropName(strings, off).value := blob], n)
         == PropAfter(Cons(Property(off, blob), tail), strings, props, n)
  {
    assert ItemOk(Property(off, blob), strings);
  }

  /** Parsing a body succeeds if and only if the cells fit in it and in everything below it. */
  lemma {:induction false} MeaningDoneFrom(items: Items, strings: seq<byte>, name: Name, props: map<Name, seq<byte>>,
                                           nodes: map<Name, Node>)
    requires ItemsOk(items, strings)
    ensures Meaning(items, strings, name, props, nodes).Done? <==>
              AllFitAfter(items, strings, props) && ChildrenFit(items, strings)
  {
    match items
    case Nil =>
    case Cons(head, tail) =>
      assert ItemOk(head, strings);
      match head
      case Nop => MeaningDoneFrom(tail, strings, name, props, nodes);
      case Property(off, blob) =>
        MeaningDoneFrom(tail, strings, name, props[PropName(strings, off).value := blob], nodes);
        PropAfterStep(off, blob, tail, strings, props, PHANDLE);
        PropAfterStep(off, blob, tail, strings, props, SIZE_CELLS);
        PropAfterStep(off, blob, tail, strings, props, ADDR_CELLS);
        PropAfterStep(off, blob, tail, strings, props, IRQ_CELLS);
      case Sub(n, body) =>
        MeaningDoneFrom(body, strings, n, map[], map[]);
        var child := Meaning(body, strings, n, map[], map[]);
        if child.Done? {
          MeaningDoneFrom(tail, strings, name, props, nodes[n := child.value]);
        }
  }

  /** Exactly the trees whose cells fit have a meaning. */
  lemma MeaningDone(items: Items, strings: seq<byte>, name: Name)
    requires ItemsOk(items, strings)
    ensures Meaning(items, strings, name, map[], map[]).Done? <==> CellsFit(items, strings)
  {
    MeaningDoneFrom(items, strings, name, map[], map[]);
  }

  lemma {:induction false} MeaningPropsFrom(items: Items, strings: seq<byte>, name: Name, props: map<Name, seq<byte>>,
                                            nodes: map<Name, Node>, n: Name)
    requires ItemsOk(items, strings) && Meaning(items, strings, name, props, nodes).Done?
    ensures var node := Meaning(items, strings, name, props, nodes).value;
            && node.name == name && Finish(name, node.props, node.nodes) == Done(node)
            && match PropAfter(items, strings, props, n)
               case Some(blob) => n in node.props && node.props[n] == blob
               case None => n !in node.props
  {
    match items
    case Nil =>
    case Cons(head, tail) =>
      assert ItemOk(head, strings);
      match head
      case Nop => MeaningPropsFrom(tail, strings, name, props, nodes, n);
      case Property(off, blob) =>
        MeaningPropsFrom(tail, strings, name, props[PropName(strings, off).value := blob], nodes, n);
        PropAfterStep(off, blob, tail, strings, props, n);
      case Sub(m, body) =>
        MeaningPropsFrom(tail, strings, name, props, nodes[m := Meaning(body, strings, m, map[], map[]).value], n);
  }

  /** The node a tree means has exactly the properties of its body. */
  lemma MeaningProps(items: Items, strings: seq<byte>, name: Name, n: Name)
    requires ItemsOk(items, strings) && CellsFit(items, strings)
    ensures Meaning(items, strings, name, map[], map[]).Done?
    ensures var node := Meaning(items, strings, name, map[], map[]).value;
            match LastProp(items, strings, n)
            case Some(blob) => n in node.props && node.props[n] == blob
            case None => n !in node.props
  {
    MeaningDone(items, strings, name);
    MeaningPropsFrom(items, strings, name, map[], map[], n);
  }

  /** Its handle and cell counts are the values of its own properties. */
  lemma MeaningCells(items: Items, strings: seq<byte>, name: Name)
    requires ItemsOk(items, strings) && CellsFit(items, strings)
    ensures Meaning(items, strings, name, map[], map[]).Done?
    ensures var node := Meaning(items, strings, name, map[], map[]).value;
            && node.name == name
            && node.phandle == CellValue(items, strings, PHANDLE)
            && node.sizeCells == CellValue(items, strings, SIZE_CELLS)
            && node.addrCells == CellValue(items, strings, ADDR_CELLS)
            && node.irqCells == CellValue(items, strings, IRQ_CELLS)
  {
    MeaningProps(items, strings, name, PHANDLE);
    MeaningProps(items, strings, name, SIZE_CELLS);
    MeaningProps(items, strings, name, ADDR_CELLS);
    MeaningProps(items, strings, name, IRQ_CELLS);
    MeaningPropsFrom(items, strings, name, map[], map[], PHANDLE);
  }

  lemma {:induction false} MeaningNodesFrom(items: Items, strings: seq<byte>, name: Name, props: map<Name, seq<byte>>,
                                            nodes: map<Name, Node>, n: Name)
    requires ItemsOk(items, strings) && Meaning(items, strings, name, props, nodes).Done?
    ensures var node := Meaning(items, strings, name, props, nodes).value;
            match LastSub(items, n)
            case Some(body) => ItemsOk(body, strings) && n in node.nodes
                               && Meaning(body, strings, n, map[], map[]) == Done(node.nodes[n])
            case None => (n in node.nodes <==> n in nodes) && (n in nodes ==> node.nodes[n] == nodes[n])
  {
    match items
    case Nil =>
    case Cons(head, tail) =>
      assert ItemOk(head, strings);
      match head
      case Nop => MeaningNodesFrom(tail, strings, name, props, nodes, n);
      case Property(off, blob) =>
        MeaningNodesFrom(tail, strings, name, props[PropName(strings, off).value := blob], nodes, n);
      case Sub(m, body) =>
        MeaningNodesFrom(tail, strings, name, props, nodes[m := Meaning(body, strings, m, map[], map[]).value], n);
  }

  /** It has exactly the children of its body, each the node its own body means. */
  lemma MeaningNodes(items: Items, strings: seq<byte>, name: Name, n: Name)
    requires ItemsOk(items, strings) && CellsFit(items, strings)
    ensures Meaning(items, strings, name, map[], map[]).Done?
    ensures var node := Meaning(items, strings, name, map[], map[]).value;
            match LastSub(items, n)
            case Some(body) => ItemsOk(body, strings) && n in node.nodes
                               && Meaning(body, strings, n, map[], map[]) == Done(node.nodes[n])
            case None => n !in node.nodes
  {
    MeaningDone(items, strings, name);
    MeaningNodesFrom(items, strings, name, map[], map[], n);
  }

  // ---------------------------------------------------------------- parsing inverts encoding

  lemma NextOfNop(strings: seq<byte>, rest: seq<byte>)
    ensures Next(Word(FDT_NOP) + rest, strings) == Next(rest, strings)
  {
    ReadWordOf(FDT_NOP, rest);
  }

  lemma NextOfEndNode(strings: seq<byte>, rest: seq<byte>)
    ensures Next(Word(FDT_END_NODE) + rest, strings) == Done((EndNode, rest))
  {
    ReadWordOf(FDT_END_NODE, rest);
  }

  lemma NextOfName(strings: seq<byte>, name: Name, rest: seq<byte>)
    requires forall i | 0 <= i < |name| :: name[i] != 0
    ensures Next(Word(FDT_BEGIN_NODE) + (Pad(name + [0]) + rest), strings) == Done((BeginNode(name), rest))
  {
    var body := Pad(name + [0]) + rest;
    ReadWordOf(FDT_BEGIN_NODE, body);
    StringEndIs(body, 0, |name|);
    assert body[..|name|] == name && body[Padded(|name| + 1)..] == rest;
  }

  lemma PadOf(blob: seq<byte>, rest: seq<byte>)
    ensures (Pad(blob) + rest)[..|blob|] == blob && (Pad(blob) + rest)[Padded(|blob|)..] == rest
  {
  }

  lemma NextPropOf(strings: seq<byte>, off: nat, blob: seq<byte>, rest: seq<byte>)
    requires ItemOk(Property(off, blob), strings)
    ensures NextProp(Word(|blob|) + (Word(off) + (Pad(blob) + rest)), strings)
         == Done((Prop(PropName(strings, off).value, blob), rest))
  {
    var data := Pad(blob) + rest;
    var tail := Word(off) + data;
    ReadWordOf(|blob|, tail);
    ReadWordOf(off, data);
    assert (Word(|blob|) + tail)[8..] == data;
    PadOf(blob, rest);
  }

  lemma NextOfProp(strings: seq<byte>, off: nat, blob: seq<byte>, rest: seq<byte>)
    requires ItemOk(Property(off, blob), strings)
    ensures Next(EncodeItem(Property(off, blob), strings) + rest, strings)
         == Done((Prop(PropName(strings, off).value, blob), rest))
  {
    var body := Word(|blob|) + (Word(off) + (Pad(blob) + rest));
    assert EncodeItem(Property(off, blob), strings) + rest == Word(FDT_PROP) + body;
    ReadWordOf(FDT_PROP, body);
    NextPropOf(strings, off, blob, rest);
  }

  /** Parsing a node's body consumes it exactly up to its own end, and gives what the body means. */
  lemma {:induction false} ParseInvertsEncode(items: Items, strings: seq<byte>, name: Name, props: map<Name, seq<byte>>,
                                              nodes: map<Name, Node>, rest: seq<byte>)
    requires ItemsOk(items, strings)
    ensures ParseFrom(Encode(items, strings) + (Word(FDT_END_NODE) + rest), strings, name, props, nodes)
         == match Meaning(items, strings, name, props, nodes) case Panic => Panic case Done(node) => Done((node, rest))
  {
    var after := Word(FDT_END_NODE) + rest;
    match items
    case Nil =>
      assert Encode(items, strings) + after == after;
      NextOfEndNode(strings, rest);
    case Cons(head, tail) =>
      var more := Encode(tail, strings) + after;
      assert Encode(items, strings) + after == EncodeItem(head, strings) + more;
      match head
      case Nop =>
        NextOfNop(strings, more);
        ParseInvertsEncode(tail, strings, name, props, nodes, rest);
        ParseNext(Word(FDT_NOP) + more, more, strings, name, props, nodes);
      case Property(off, blob) =>
        NextOfProp(strings, off, blob, more);
        ParseInvertsEncode(tail, strings, name, props[PropName(strings, off).value := blob], nodes, rest);
      case Sub(n, body) =>
        var inside := Encode(body, strings) + (Word(FDT_END_NODE) + more);
        assert EncodeItem(head, strings) + more == Word(FDT_BEGIN_NODE) + (Pad(n + [0]) + inside);
        NextOfName(strings, n, inside);
        ParseInvertsEncode(body, strings, n, map[], map[], more);
        var child := Meaning(body, strings, n, map[], map[]);
        if child.Done? {
          ParseInvertsEncode(tail, strings, name, props, nodes[n := child.value], rest);
        }
  }

  lemma ParseNext(a: seq<byte>, b: seq<byte>, strings: seq<byte>, name: Name, props: map<Name, seq<byte>>,
                  nodes: map<Name, Node>)
    requires Next(a, strings) == Next(b, strings)
    ensures ParseFrom(a, strings, name, props, nodes) == ParseFrom(b, strings, name, props, nodes)
  {
  }

  /** A whole structure block: the root node, whose name is empty, and nothing after it. */
  function ParseTree(block: seq<byte>, strings: seq<byte>): Outcome<Node> {
    match Next(block, strings)
    case Panic => Panic
    case Done((token, rest)) =>
      if token != BeginNode([]) then Panic
      else
        match ParseFrom(rest, strings, [], map[], map[])
        case Panic => Panic
        case Done((root, after)) =>
          match Next(after, strings)
          case Panic => Panic
          case Done((last, _)) => if last == End then Done(root) else Panic
  }

  /** Any number of FDT_NOP tokens. */
  function Nops(n: nat): seq<byte> {
    if n == 0 then [] else Word(FDT_NOP) + Nops(n - 1)
  }

  lemma {:induction false} NextOfNops(n: nat, strings: seq<byte>, rest: seq<byte>)
    ensures Next(Nops(n) + rest, strings) == Next(rest, strings)
  {
    if n == 0 {
      assert Nops(n) + rest == rest;
    } else {
      assert Nops(n) + rest == Word(FDT_NOP) + (Nops(n - 1) + rest);
      NextOfNop(strings, Nops(n - 1) + rest);
      NextOfNops(n - 1, strings, rest);
    }
  }

  /** Parsing a whole encoded tree gives what it means, with any FDT_NOP tokens around and any bytes after the end. */
  lemma TreeRoundTrip(items: Items, strings: seq<byte>, before: nat, after: nat, junk: seq<byte>)
    requires ItemsOk(items, strings)
    ensures ParseTree(Nops(before) + (EncodeItem(Sub([], items), strings) + (Nops(after) + (Word(FDT_END) + junk))),
                      strings)
         == Meaning(items, strings, [], map[], map[])
    ensures Meaning(items, strings, [], map[], map[]).Done? <==> CellsFit(items, strings)
  {
    MeaningDone(items, strings, []);
    var end := Nops(after) + (Word(FDT_END) + junk);
    var body := Encode(items, strings) + (Word(FDT_END_NODE) + end);
    var root := EncodeItem(Sub([], items), strings) + end;
    assert Next(Nops(before) + root, strings) == Done((BeginNode([]), body)) by {
      NextOfNops(before, strings, root);
      RootStart(items, strings, end);
    }
    assert Next(end, strings) == Done((End, Word(FDT_END) + junk)) by {
      NextOfNops(after, strings, Word(FDT_END) + junk);
      ReadWordOf(FDT_END, junk);
    }
    ParseInvertsEncode(items, strings, [], map[], map[], end);
  }

  lemma RootStart(items: Items, strings: seq<byte>, end: seq<byte>)
    requires ItemsOk(items, strings)
    ensures Next(EncodeItem(Sub([], items), strings) + end, strings)
         == Done((BeginNode([]), Encode(items, strings) + (Word(FDT_END_NODE) + end)))
  {
    var body := Encode(items, strings) + (Word(FDT_END_NODE) + end);
    assert EncodeItem(Sub([], items), strings) + end == Word(FDT_BEGIN_NODE) + (Pad([] + [0]) + body);
    NextOfName(strings, [], body);
  }

  // ---------------------------------------------------------------- the parser

  class TokenStream {
    var structBlock: seq<byte>
    const stringBlock: seq<byte>

    constructor (structBlock: seq<byte>, stringBlock: seq<byte>)
      ensures this.structBlock == structBlock && this.stringBlock == stringBlock
    {
      this.structBlock, this.stringBlock := structBlock, stringBlock;
    }

    /** The next token; FDT_END is not consumed. */
    method NextToken() returns (r: Outcome<Token>)
      modifies this
      ensures match Next(old(structBlock), stringBlock)
              case Panic => r == Panic
              case Done((token, rest)) => r == Done(token) && structBlock == rest
    {
      while true
        invariant Next(structBlock, stringBlock) == Next(old(structBlock), stringBlock)
        decreases |structBlock|
      {
        if |structBlock| < 4 {
          return Panic;
        }
        var raw := ReadWord(structBlock);
        if raw == FDT_END {
          return Done(End);
        }
        var rest := structBlock[4..];
        if raw == FDT_BEGIN_NODE {
          var end := StringEnd(rest, 0);
          if end.None? || Padded(end.value + 1) > |rest| {
            return Panic;
          }
          structBlock := rest[Padded(end.value + 1)..];
          return Done(BeginNode(rest[..end.value]));
        } else if raw == FDT_END_NODE {
          structBlock := rest;
          return Done(EndNode);
        } else if raw == FDT_PROP {
          r := NextProperty(rest);
          return;
        } else if raw != FDT_NOP {
          return Panic;
        }
        structBlock := rest;
      }
    }

    method NextProperty(rest: seq<byte>) returns (r: Outcome<Token>)
      modifies this
      ensures match NextProp(rest, stringBlock)
              case Panic => r == Panic
              case Done((token, after)) => r == Done(token) && structBlock == after
    {
      if |rest| < 8 {
        return Panic;
      }
      var len, off := ReadWord(rest), ReadWord(rest[4..]);
      var data := rest[8..];
      if |data| < Padded(len) {
        return Panic;
      }
      structBlock := data[Padded(len)..];
      if off > |stringBlock| {
        return Panic;
      }
      var end := StringEnd(stringBlock, off);
      if end.None? || stringBlock[off..end.value] == [] {
        return Panic;
      }
      return Done(Prop(stringBlock[off..end.value], data[..len]));
    }

    /** Parse the node whose body comes next. */
    method ParseNode(name: Name) returns (r: Outcome<Node>)
      modifies this
      ensures match ParseFrom(old(structBlock), stringBlock, name, map[], map[])
              case Panic => r == Panic
              case Done((node, rest)) => r == Done(node) && structBlock == rest
      decreases |structBlock|
    {
      var props: map<Name, seq<byte>>, nodes: map<Name, Node> := map[], map[];
      while true
        invariant ParseFrom(structBlock, stringBlock, name, props, nodes)
               == ParseFrom(old(structBlock), stringBlock, name, map[], map[])
        invariant |structBlock| <= |old(structBlock)|
        decreases |structBlock|
      {
        var token := NextToken();
        if token.Panic? || token.value == End {
          return Panic;
        }
        match token.value
        case BeginNode(n) =>
          var child := ParseNode(n);
          if child.Panic? {
            return Panic;
          }
          nodes := nodes[n := child.value];
        case EndNode =>
          return Finish(name, props, nodes);
        case Prop(n, blob) =>
          props := props[n := blob];
      }
    }
  }

  // ---------------------------------------------------------------- cells

  /** Bytes as one number, most significant first. */
  function BigEndian(b: seq<byte>): nat {
    if b == [] then 0 else BigEndian(b[..|b| - 1]) * 0x100 + b[|b| - 1] as nat
  }

  lemma BigEndianWord(b: seq<byte>, start: nat, n: nat)
    requires start <= n && n + 4 <= |b|
    ensures BigEndian(b[start..n + 4]) == BigEndian(b[start..n]) * U32_LIMIT + ReadWord(b[n..])
  {
    BigEndianByte(b, start, n);
    BigEndianByte(b, start, n + 1);
    BigEndianByte(b, start, n + 2);
    BigEndianByte(b, start, n + 3);
  }

  lemma BigEndianByte(b: seq<byte>, start: nat, n: nat)
    requires start <= n < |b|
    ensures BigEndian(b[start..n + 1]) == BigEndian(b[start..n]) * 0x100 + b[n] as nat
  {
    assert b[start..n + 1][..n - start] == b[start..n];
  }

  /** Read cells as one number; up to four of them fit the result. */
  method ReadUintCells(blob: seq<byte>, start: nat, count: nat) returns (r: Option<nat>)
    requires count <= 4
    ensures r.None? <==> |blob| / 4 < start + count
    ensures r.Some? ==> (start + count) * 4 <= |blob| && r.value == BigEndian(blob[start * 4..(start + count) * 4])
  {
    if |blob| / 4 < start + count {
      return None;
    }
    var value, cell := 0, start;
    while cell < start + count
      invariant start <= cell <= start + count && value == BigEndian(blob[start * 4..cell * 4])
    {
      BigEndianWord(blob, start * 4, cell * 4);
      value := value * U32_LIMIT + ReadWord(blob[cell * 4..]);
      cell := cell + 1;
    }
    return Some(value);
  }
}
