/**
 * Spans. A node's span `(start, length)` says where its own text lies in
 * the text of the whole tree: the start is measured after the node's
 * prefix, and every child starts at its parent's start plus the parent's
 * child offset plus the texts of the children before it. A node's place in
 * the tree is a path of child indices from the root.
 */
module Spans {
  import opened Comments
  import opened Strings
  import opened Nodes

  /** The child indices leading from the root down to a node. */
  type Path = seq<nat>

  /** `GetSpan()`: the node's start and length in the root's text. */
  datatype Span = Span(start: int, length: int)

  predicate ValidPath(root: Node, path: Path)
    decreases |path|
  {
    |path| == 0 || (path[0] < |root.children| && ValidPath(root.children[path[0]], path[1..]))
  }

  function NodeAt(root: Node, path: Path): Node
    requires ValidPath(root, path)
    decreases |path|
  {
    if |path| == 0 then root else NodeAt(root.children[path[0]], path[1..])
  }

  /** The text a group writes before its first child, counted as the group classes count it. */
  function GroupOffset(g: GroupKind): int {
    match g
    case Capture => 1
    case NonCapture => 3
    case Atomic => 3
    case Named(name, _) => |name| + 4
    case Balancing(balancedGroupName, name, _) => |balancedGroupName| + |name| + 5
    case Lookaround(lookahead, _) => if lookahead then 4 else 3
    case Conditional => 2
    case ModeModifier(modifiers) => |modifiers| + 3
  }

  /** `ChildSpanOffset`: from the node's span start to where its first child's text starts. */
  function ChildSpanOffset(n: Node): int {
    match n.kind
    case CharacterClass(negated) => if negated then 2 else 1
    case Group(g) => GroupOffset(g)
    case Postfix(_) => 0 - |OperandText(n)| - |PrefixText(n.prefix)|
    case _ => 0
  }

  /**
   * `GetSpanStart()` of a node whose text begins at `pos`: after the prefix,
   * and for a postfix node after the operand as well, which a missing
   * operand adds nothing to (`base + (length ?? 0)`).
   */
  function SpanStart(n: Node, pos: int): int {
    var p := |PrefixText(n.prefix)|;
    if n.kind.Postfix? then pos + p + |OperandText(n)| else pos + p
  }

  /** `GetSpanLength()`: the node's text without its prefix (and without the operand of a postfix node). */
  function SpanLength(n: Node): int {
    var p := |PrefixText(n.prefix)|;
    if n.kind.Postfix? then |Serialize(n)| - p - |OperandText(n)| else |Serialize(n)| - p
  }

  /** Separator characters counted before child `i`: one `|` per earlier alternate, one `-` before a subtraction. */
  function SeparatorsBefore(n: Node, i: nat): nat {
    match n.kind
    case Alternation => i
    case CharacterClass(_) => if i > 0 then 1 else 0
    case _ => 0
  }

  /** Where the text of child `i` (its prefix included) begins, for a parent whose text begins at `pos`. */
  function ChildPos(n: Node, pos: int, i: nat): int
    requires i < |n.children|
  {
    SpanStart(n, pos) + ChildSpanOffset(n) + TotalLength(Texts(n.children)[..i]) + SeparatorsBefore(n, i)
  }

  /** Where the text of the node at `path` begins, when the text of `root` begins at `pos`. */
  function Position(root: Node, pos: int, path: Path): int
    requires ValidPath(root, path)
    decreases |path|
  {
    if |path| == 0 then pos
    else Position(root.children[path[0]], ChildPos(root, pos, path[0]), path[1..])
  }

  /** `GetSpan()` of the node at `path`, with `root` the parentless node. */
  function GetSpan(root: Node, path: Path): Span
    requires ValidPath(root, path)
  {
    var n := NodeAt(root, path);
    Span(SpanStart(n, Position(root, 0, path)), SpanLength(n))
  }

  // ---------------------------------------------------------------------
  // Where the child offsets agree with the text

  /**
   * The nodes whose child positions match their text. Left out: leaves with
   * children, prefixed concatenations (the start counts a prefix the text
   * does not contain), malformed classes, postfix nodes with more than one
   * child, and lookarounds with children (their offsets are swapped).
   */
  predicate ChildrenInPlace(n: Node) {
    match n.kind
    case Leaf(_) => |n.children| == 0
    case Concatenation => n.prefix == NoPrefix
    case Alternation => true
    case CharacterClass(_) => |n.children| == 0 || WellFormedClass(n)
    case CharacterClassCharacterSet => true
    case Group(g) => g.Lookaround? ==> |n.children| == 0
    case Postfix(_) => |n.children| <= 1
  }

  /** Every node above the end of the path has its children in place. */
  predicate AlignedAlong(root: Node, path: Path)
    requires ValidPath(root, path)
    decreases |path|
  {
    |path| == 0 || (ChildrenInPlace(root) && AlignedAlong(root.children[path[0]], path[1..]))
  }

  /**
   * The nodes that write each of their children in full: all but leaves with
   * children, malformed classes and postfix nodes with more than one child.
   * Unlike `ChildrenInPlace`, the child offsets need not agree with the text.
   */
  predicate ChildrenWritten(n: Node) {
    match n.kind
    case Leaf(_) => |n.children| == 0
    case CharacterClass(_) => |n.children| == 0 || WellFormedClass(n)
    case Postfix(_) => |n.children| <= 1
    case _ => true
  }

  /** Every node above the end of the path writes its children in full. */
  predicate WrittenAlong(root: Node, path: Path)
    requires ValidPath(root, path)
    decreases |path|
  {
    |path| == 0 || (ChildrenWritten(root) && WrittenAlong(root.children[path[0]], path[1..]))
  }

  /** Where the text of the node at `path` begins in the root's text: what its ancestors write before it. */
  function TextOffset(root: Node, path: Path): nat
    requires ValidPath(root, path)
    decreases |path|
  {
    if |path| == 0 then 0 else |Before(root, path[0])| + TextOffset(root.children[path[0]], path[1..])
  }

  /** The text a node writes before its child `i`. */
  function Before(n: Node, i: nat): string
    requires i < |n.children|
  {
    var p := PrefixText(n.prefix);
    var ts := Texts(n.children);
    match n.kind
    case Leaf(_) => ""
    case Concatenation => Concat(ts[..i])
    case Alternation => p + JoinedBefore(ts, i)
    case CharacterClass(negated) => p + "[" + (if negated then "^" else "") + (if i == 0 then "" else ts[0] + "-")
    case CharacterClassCharacterSet => p + Concat(ts[..i])
    case Group(g) => p + Opening(g, true) + Concat(ts[..i])
    case Postfix(_) => ""
  }

  /** The text a node writes after its child `i`. */
  function After(n: Node, i: nat): string
    requires i < |n.children|
  {
    var p := PrefixText(n.prefix);
    var ts := Texts(n.children);
    match n.kind
    case Leaf(_) => ""
    case Concatenation => Concat(ts[i + 1..])
    case Alternation => JoinedAfter(ts, i)
    case CharacterClass(_) => (if i == 0 && HasSubtraction(n) then "-" + ts[1] else "") + "]"
    case CharacterClassCharacterSet => Concat(ts[i + 1..])
    case Group(_) => Concat(ts[i + 1..]) + ")"
    case Postfix(op) => p + Operator(op)
  }

  /** A group's opening text is as long as its offset, except for a lookaround. */
  lemma OpeningLength(g: GroupKind)
    requires !g.Lookaround?
    ensures |Opening(g, true)| == GroupOffset(g)
  {
  }

  lemma {:induction false} ConcatenationChildText(n: Node, i: nat)
    requires n.kind.Concatenation? && i < |n.children|
    ensures Serialize(n) == Before(n, i) + Serialize(n.children[i]) + After(n, i)
  {
    ConcatSplit(Texts(n.children), i);
  }

  lemma {:induction false} ConcatenationChildLength(n: Node, i: nat)
    requires n.kind.Concatenation? && n.prefix == NoPrefix && i < |n.children|
    ensures |Before(n, i)| == ChildPos(n, 0, i)
  {
    ConcatLength(Texts(n.children)[..i]);
  }

  lemma {:induction false} AlternationChildText(n: Node, i: nat)
    requires n.kind.Alternation? && i < |n.children|
    ensures Serialize(n) == Before(n, i) + Serialize(n.children[i]) + After(n, i)
  {
    JoinSplit(Texts(n.children), i);
  }

  lemma {:induction false} AlternationChildLength(n: Node, i: nat)
    requires n.kind.Alternation? && i < |n.children|
    ensures |Before(n, i)| == ChildPos(n, 0, i)
  {
    JoinSplit(Texts(n.children), i);
  }

  lemma {:induction false} ClassChildText(n: Node, i: nat)
    requires WellFormedClass(n) && i < |n.children|
    ensures Serialize(n) == Before(n, i) + Serialize(n.children[i]) + After(n, i)
  {
    WellFormedClassText(n);
    var p := PrefixText(n.prefix);
    var neg := if n.kind.negated then "^" else "";
    var a := Serialize(n.children[0]);
    var ts := Texts(n.children);
    assert ts[0] == a;
    if i == 0 {
      var sub := if |n.children| == 2 then "-" + Serialize(n.children[1]) else "";
      assert |n.children| == 2 ==> ts[1] == Serialize(n.children[1]);
      assert Before(n, i) == p + "[" + neg + "";
      assert After(n, i) == sub + "]";
      ClassRegroupSet(p, neg, a, sub);
    } else {
      var b := Serialize(n.children[1]);
      assert Before(n, i) == p + "[" + neg + (a + "-");
      assert After(n, i) == "" + "]";
      ClassRegroupSubtraction(p, neg, a, b);
    }
  }

  lemma ClassRegroupSet(p: string, neg: string, a: string, sub: string)
    ensures p + "[" + neg + a + sub + "]" == (p + "[" + neg + "") + a + (sub + "]")
  {
  }

  lemma ClassRegroupSubtraction(p: string, neg: string, a: string, b: string)
    ensures p + "[" + neg + a + ("-" + b) + "]" == (p + "[" + neg + (a + "-")) + b + ("" + "]")
  {
  }

  lemma {:induction false} ClassChildLength(n: Node, i: nat)
    requires WellFormedClass(n) && i < |n.children|
    ensures |Before(n, i)| == ChildPos(n, 0, i)
  {
    var ts := Texts(n.children);
    if i == 1 {
      TotalLengthStep(ts, 0);
      assert ts[..0] == [];
    }
  }

  lemma {:induction false} CharacterSetChildText(n: Node, i: nat)
    requires n.kind.CharacterClassCharacterSet? && i < |n.children|
    ensures Serialize(n) == Before(n, i) + Serialize(n.children[i]) + After(n, i)
  {
    var ts := Texts(n.children);
    ConcatSplit(ts, i);
    Enclose(PrefixText(n.prefix), Concat(ts[..i]), ts[i], Concat(ts[i + 1..]), "");
  }

  lemma {:induction false} CharacterSetChildLength(n: Node, i: nat)
    requires n.kind.CharacterClassCharacterSet? && i < |n.children|
    ensures |Before(n, i)| == ChildPos(n, 0, i)
  {
    ConcatLength(Texts(n.children)[..i]);
  }

  lemma {:induction false} GroupChildText(n: Node, i: nat)
    requires n.kind.Group? && i < |n.children|
    ensures Serialize(n) == Before(n, i) + Serialize(n.children[i]) + After(n, i)
  {
    var ts := Texts(n.children);
    ConcatSplit(ts, i);
    Enclose(PrefixText(n.prefix) + Opening(n.kind.group, true), Concat(ts[..i]), ts[i], Concat(ts[i + 1..]), ")");
  }

  lemma {:induction false} GroupChildLength(n: Node, i: nat)
    requires n.kind.Group? && !n.kind.group.Lookaround? && i < |n.children|
    ensures |Before(n, i)| == ChildPos(n, 0, i)
  {
    ConcatLength(Texts(n.children)[..i]);
    OpeningLength(n.kind.group);
  }

  lemma {:induction false} PostfixChildText(n: Node)
    requires n.kind.Postfix? && |n.children| == 1
    ensures Serialize(n) == Before(n, 0) + Serialize(n.children[0]) + After(n, 0)
  {
    var a := Serialize(n.children[0]);
    var p := PrefixText(n.prefix);
    var o := Operator(n.kind.op);
    assert Serialize(n) == a + p + o;
    Regroup(a, p, o);
  }

  lemma PostfixChildLength(n: Node)
    requires n.kind.Postfix? && |n.children| == 1
    ensures |Before(n, 0)| == ChildPos(n, 0, 0)
  {
  }

  /** A node that writes its children in full writes child `i` between `Before` and `After`. */
  lemma {:induction false} ChildWritten(n: Node, i: nat)
    requires ChildrenWritten(n) && i < |n.children|
    ensures Serialize(n) == Before(n, i) + Serialize(n.children[i]) + After(n, i)
  {
    match n.kind
    case Concatenation => ConcatenationChildText(n, i);
    case Alternation => AlternationChildText(n, i);
    case CharacterClass(_) => ClassChildText(n, i);
    case CharacterClassCharacterSet => CharacterSetChildText(n, i);
    case Group(_) => GroupChildText(n, i);
    case Postfix(_) => PostfixChildText(n);
  }

  /** A node whose children are in place writes child `i` at the child's position, between `Before` and `After`. */
  lemma {:induction false} ChildInParent(n: Node, i: nat)
    requires ChildrenInPlace(n) && i < |n.children|
    ensures ChildrenWritten(n)
    ensures Serialize(n) == Before(n, i) + Serialize(n.children[i]) + After(n, i)
    ensures |Before(n, i)| == ChildPos(n, 0, i)
  {
    ChildWritten(n, i);
    match n.kind
    case Concatenation => ConcatenationChildLength(n, i);
    case Alternation => AlternationChildLength(n, i);
    case CharacterClass(_) => ClassChildLength(n, i);
    case CharacterClassCharacterSet => CharacterSetChildLength(n, i);
    case Group(_) => GroupChildLength(n, i);
    case Postfix(_) => PostfixChildLength(n);
  }

  /** A text found at `x` in child `i`'s text is found `|Before|` further on in the parent's text. */
  lemma ChildTextWritten(n: Node, i: nat, x: int, s: string)
    requires ChildrenWritten(n) && i < |n.children|
    requires FoundAt(Serialize(n.children[i]), x, s)
    ensures FoundAt(Serialize(n), |Before(n, i)| + x, s)
  {
    ChildWritten(n, i);
    FoundInMiddle(Serialize(n), Before(n, i), Serialize(n.children[i]), After(n, i), x, s);
  }

  /** Below nodes that write their children in full, a node's text sits in the root's text at its text offset. */
  lemma {:induction false} NodeTextWritten(root: Node, path: Path)
    requires ValidPath(root, path) && WrittenAlong(root, path)
    ensures FoundAt(Serialize(root), TextOffset(root, path), Serialize(NodeAt(root, path)))
    decreases |path|
  {
    if |path| > 0 {
      var i := path[0];
      var c := root.children[i];
      NodeTextWritten(c, path[1..]);
      ChildTextWritten(root, i, TextOffset(c, path[1..]), Serialize(NodeAt(c, path[1..])));
    }
  }

  /** Where the child offsets agree with the text, the text offset is the position the spans count from. */
  lemma {:induction false} OffsetIsPosition(root: Node, path: Path)
    requires ValidPath(root, path) && AlignedAlong(root, path)
    ensures WrittenAlong(root, path) && TextOffset(root, path) == Position(root, 0, path)
    decreases |path|
  {
    if |path| > 0 {
      var i := path[0];
      var c := root.children[i];
      OffsetIsPosition(c, path[1..]);
      ChildInParent(root, i);
      PositionShift(c, ChildPos(root, 0, i), path[1..]);
    }
  }

  /** Child positions move with the parent's position. */
  lemma ChildPosShift(n: Node, pos: int, i: nat)
    requires i < |n.children|
    ensures ChildPos(n, pos, i) == pos + ChildPos(n, 0, i)
  {
  }

  lemma {:induction false} PositionShift(n: Node, pos: int, path: Path)
    requires ValidPath(n, path)
    ensures Position(n, pos, path) == pos + Position(n, 0, path)
    decreases |path|
  {
    if |path| > 0 {
      var i := path[0];
      var c := n.children[i];
      ChildPosShift(n, pos, i);
      PositionShift(c, ChildPos(n, pos, i), path[1..]);
      PositionShift(c, ChildPos(n, 0, i), path[1..]);
    }
  }

  /** A text found at `x` in child `i`'s text is found at the child's position plus `x` in the parent's text. */
  lemma ChildTextInParent(n: Node, i: nat, x: int, s: string)
    requires ChildrenInPlace(n) && i < |n.children|
    requires FoundAt(Serialize(n.children[i]), x, s)
    ensures FoundAt(Serialize(n), ChildPos(n, 0, i) + x, s)
  {
    ChildInParent(n, i);
    FoundInMiddle(Serialize(n), Before(n, i), Serialize(n.children[i]), After(n, i), x, s);
  }

  /** Below nodes whose children are in place, a node's text sits in the root's text at the node's position. */
  lemma {:induction false} NodeTextInTree(root: Node, path: Path)
    requires ValidPath(root, path) && AlignedAlong(root, path)
    ensures FoundAt(Serialize(root), Position(root, 0, path), Serialize(NodeAt(root, path)))
    decreases |path|
  {
    if |path| > 0 {
      var i := path[0];
      var c := root.children[i];
      var rest := path[1..];
      NodeTextInTree(c, rest);
      PositionShift(c, ChildPos(root, 0, i), rest);
      ChildTextInParent(root, i, Position(c, 0, rest), Serialize(NodeAt(c, rest)));
    }
  }

  /** The nodes whose span is the text after their prefix. */
  predicate SpanAfterPrefix(n: Node) {
    PrintsPrefixFirst(n.kind) || (n.kind.Concatenation? && n.prefix == NoPrefix)
  }

  /** The span of a node that writes its prefix first: right after the prefix, to the end of its text. */
  lemma AfterPrefixSpan(n: Node, pos: int)
    requires SpanAfterPrefix(n)
    ensures |PrefixText(n.prefix)| <= |Serialize(n)|
    ensures Serialize(n)[..|PrefixText(n.prefix)|] == PrefixText(n.prefix)
    ensures SpanStart(n, pos) == pos + |PrefixText(n.prefix)|
    ensures SpanLength(n) == |Serialize(n)| - |PrefixText(n.prefix)|
  {
    PrefixPlacement(n);
  }

  /** The three parts of a postfix node's text: operand, prefix, operator. */
  lemma PostfixPieces(n: Node)
    requires n.kind.Postfix?
    ensures |OperandText(n)| + |PrefixText(n.prefix)| + |Operator(n.kind.op)| == |Serialize(n)|
    ensures Serialize(n)[..|OperandText(n)|] == OperandText(n)
    ensures Serialize(n)[|OperandText(n)|..|OperandText(n)| + |PrefixText(n.prefix)|] == PrefixText(n.prefix)
    ensures Serialize(n)[|OperandText(n)| + |PrefixText(n.prefix)|..] == Operator(n.kind.op)
  {
    PrefixPlacement(n);
  }

  /** The span of a postfix node: after the operand and the prefix, as long as the operator. */
  lemma PostfixSpan(n: Node, pos: int)
    requires n.kind.Postfix?
    ensures SpanStart(n, pos) == pos + |OperandText(n)| + |PrefixText(n.prefix)|
    ensures SpanLength(n) == |Operator(n.kind.op)|
  {
    PostfixPieces(n);
  }

  /** What a node that writes its prefix first writes after that prefix. */
  function Rest(n: Node): string {
    if PrintsPrefixFirst(n.kind) then Unprefixed(n) else Serialize(n)
  }

  lemma PrefixThenRest(n: Node)
    requires SpanAfterPrefix(n)
    ensures Serialize(n) == PrefixText(n.prefix) + Rest(n)
  {
    PrefixPlacement(n);
    if !PrintsPrefixFirst(n.kind) {
      assert PrefixText(n.prefix) == "";
    }
  }

  /** In the root's text, a node that writes its prefix first: the prefix, then the rest. */
  lemma PrefixedTextInTree(root: Node, path: Path)
    requires ValidPath(root, path) && AlignedAlong(root, path)
    requires SpanAfterPrefix(NodeAt(root, path))
    ensures FoundAt(Serialize(root), Position(root, 0, path), PrefixText(NodeAt(root, path).prefix) + Rest(NodeAt(root, path)))
  {
    NodeTextInTree(root, path);
    PrefixThenRest(NodeAt(root, path));
  }

  /** The prefix of a node that writes its prefix first sits at the node's position. */
  lemma PrefixInTree(root: Node, path: Path)
    requires ValidPath(root, path) && AlignedAlong(root, path)
    requires SpanAfterPrefix(NodeAt(root, path))
    ensures FoundAt(Serialize(root), Position(root, 0, path), PrefixText(NodeAt(root, path).prefix))
  {
    var n := NodeAt(root, path);
    PrefixedTextInTree(root, path);
    FoundHead(Serialize(root), Position(root, 0, path), PrefixText(n.prefix), Rest(n));
  }

  /** The prefix sits right before the span. */
  lemma PrefixBeforeSpan(root: Node, path: Path)
    requires ValidPath(root, path) && AlignedAlong(root, path)
    requires SpanAfterPrefix(NodeAt(root, path))
    ensures
      var sp := GetSpan(root, path);
      var p := PrefixText(NodeAt(root, path).prefix);
      |p| <= sp.start && FoundAt(Serialize(root), sp.start - |p|, p)
  {
    var n := NodeAt(root, path);
    var q := Position(root, 0, path);
    PrefixedTextInTree(root, path);
    AfterPrefixSpan(n, q);
    FoundBefore(Serialize(root), q, PrefixText(n.prefix), Rest(n), GetSpan(root, path).start);
  }

  /** The span holds the rest of the node's text, after its prefix. */
  lemma SpanInTree(root: Node, path: Path)
    requires ValidPath(root, path) && AlignedAlong(root, path)
    requires SpanAfterPrefix(NodeAt(root, path))
    ensures
      var n := NodeAt(root, path);
      var sp := GetSpan(root, path);
      sp.length == |Serialize(n)| - |PrefixText(n.prefix)| && FoundAt(Serialize(root), sp.start, Serialize(n)[|PrefixText(n.prefix)|..])
  {
    var n := NodeAt(root, path);
    var q := Position(root, 0, path);
    PrefixedTextInTree(root, path);
    AfterPrefixSpan(n, q);
    PrefixThenRest(n);
    RestOf(Serialize(n), PrefixText(n.prefix), Rest(n));
    FoundTail(Serialize(root), q, PrefixText(n.prefix), Rest(n), GetSpan(root, path).start);
  }

  lemma PostfixText(n: Node)
    requires n.kind.Postfix?
    ensures Serialize(n) == OperandText(n) + PrefixText(n.prefix) + Operator(n.kind.op)
  {
  }

  /** In the root's text, a postfix node: its operand, then its prefix, then its operator. */
  lemma PostfixTextInTree(root: Node, path: Path)
    requires ValidPath(root, path) && AlignedAlong(root, path)
    requires NodeAt(root, path).kind.Postfix?
    ensures FoundAt(Serialize(root), Position(root, 0, path),
                    OperandText(NodeAt(root, path)) + PrefixText(NodeAt(root, path).prefix) + Operator(NodeAt(root, path).kind.op))
  {
    NodeTextInTree(root, path);
    PostfixText(NodeAt(root, path));
  }

  /** A postfix node's span is its operator, a lazy node's without a child included. */
  lemma PostfixSpanInTree(root: Node, path: Path)
    requires ValidPath(root, path) && AlignedAlong(root, path)
    requires NodeAt(root, path).kind.Postfix?
    ensures
      var n := NodeAt(root, path);
      var sp := GetSpan(root, path);
      sp.length == |Operator(n.kind.op)| && FoundAt(Serialize(root), sp.start, Operator(n.kind.op))
  {
    var n := NodeAt(root, path);
    var q := Position(root, 0, path);
    PostfixTextInTree(root, path);
    PostfixSpan(n, q);
    FoundTail(Serialize(root), q, OperandText(n) + PrefixText(n.prefix), Operator(n.kind.op), GetSpan(root, path).start);
  }

  /** Right before a postfix node's span comes its prefix, right after its operand. */
  lemma PostfixPrefixBeforeSpan(root: Node, path: Path)
    requires ValidPath(root, path) && AlignedAlong(root, path)
    requires NodeAt(root, path).kind.Postfix?
    ensures
      var n := NodeAt(root, path);
      var q := Position(root, 0, path);
      var o := OperandText(n);
      var p := PrefixText(n.prefix);
      GetSpan(root, path).start == q + |o| + |p| && FoundAt(Serialize(root), q + |o|, p)
  {
    var n := NodeAt(root, path);
    var q := Position(root, 0, path);
    PostfixTextInTree(root, path);
    PostfixSpan(n, q);
    FoundSecond(Serialize(root), q, OperandText(n), PrefixText(n.prefix), Operator(n.kind.op));
  }

  /** The operand's text starts where the postfix node's text starts; the span starts after the operand and the prefix. */
  lemma OperandBeforePrefix(root: Node, path: Path)
    requires ValidPath(root, path) && AlignedAlong(root, path)
    requires NodeAt(root, path).kind.Postfix?
    ensures
      var n := NodeAt(root, path);
      var q := Position(root, 0, path);
      var o := OperandText(n);
      GetSpan(root, path).start == q + |o| + |PrefixText(n.prefix)| && FoundAt(Serialize(root), q, o)
  {
    var n := NodeAt(root, path);
    var q := Position(root, 0, path);
    PostfixTextInTree(root, path);
    PostfixSpan(n, q);
    FoundHead(Serialize(root), q, OperandText(n) + PrefixText(n.prefix), Operator(n.kind.op));
    FoundHead(Serialize(root), q, OperandText(n), PrefixText(n.prefix));
  }

  /** The characters between the texts of child `i` and child `i + 1` that spans count. */
  function Separator(n: Node, i: nat): nat {
    match n.kind
    case Alternation => 1
    case CharacterClass(_) => if i == 0 then 1 else 0
    case _ => 0
  }

  /** Siblings are contiguous: each child starts where the previous one ends, plus the separator. */
  lemma SiblingsContiguous(n: Node, pos: int, i: nat)
    requires i + 1 < |n.children|
    ensures ChildPos(n, pos, i + 1) == ChildPos(n, pos, i) + |Serialize(n.children[i])| + Separator(n, i)
  {
    TotalLengthStep(Texts(n.children), i);
  }

  /** The node at path `[i]` is child `i`, its text starting at the child's position. */
  lemma ChildAt(n: Node, i: nat)
    requires i < |n.children|
    ensures ValidPath(n, [i]) && NodeAt(n, [i]) == n.children[i] && Position(n, 0, [i]) == ChildPos(n, 0, i)
  {
    var path: Path := [i];
    assert path[1..] == [];
  }

  /** A node's span ends where its text ends. */
  lemma SpanEnd(n: Node, pos: int)
    ensures SpanStart(n, pos) + SpanLength(n) == pos + |Serialize(n)|
  {
  }

  /** The next child's span starts where this child's span ends, after the separator, when the next child has no prefix. */
  lemma NextSiblingSpan(n: Node, i: nat)
    requires i + 1 < |n.children|
    requires n.children[i + 1].prefix == NoPrefix && !n.children[i + 1].kind.Postfix?
    ensures GetSpan(n, [i + 1]).start == GetSpan(n, [i]).start + GetSpan(n, [i]).length + Separator(n, i)
  {
    ChildAt(n, i);
    ChildAt(n, i + 1);
    SpanEnd(n.children[i], ChildPos(n, 0, i));
    SiblingsContiguous(n, 0, i);
  }

  /** The operand of a parentless postfix node keeps its own span, whatever the postfix node's prefix. */
  lemma OperandSpan(n: Node)
    requires n.kind.Postfix? && |n.children| > 0
    ensures GetSpan(n, [0]) == Span(SpanStart(n.children[0], 0), SpanLength(n.children[0]))
  {
    ChildAt(n, 0);
    PostfixOperandFirst(n, 0);
  }

  /** In a parentless class the character set starts after `[` or `[^`, a subtraction after the set's text and `-`. */
  lemma ClassChildPositions(n: Node)
    requires n.kind.CharacterClass? && |n.children| > 0
    ensures Position(n, 0, [0]) == |PrefixText(n.prefix)| + (if n.kind.negated then 2 else 1)
    ensures |n.children| > 1 ==> Position(n, 0, [1]) == Position(n, 0, [0]) + |Serialize(n.children[0])| + 1
  {
    ChildAt(n, 0);
    assert Texts(n.children)[..0] == [];
    if |n.children| > 1 {
      ChildAt(n, 1);
      SiblingsContiguous(n, 0, 0);
    }
  }

  /** The operand of a postfix node starts where the postfix node's text starts, before the prefix. */
  lemma PostfixOperandFirst(n: Node, pos: int)
    requires n.kind.Postfix? && |n.children| > 0
    ensures ChildPos(n, pos, 0) == pos
  {
  }

  // ---------------------------------------------------------------------
  // Comments

  /** The spans of the comments in a chain hosted by a node whose text begins at `pos`, in written order. */
  function CommentSpans(pos: int, p: Prefix): (r: seq<Span>)
    ensures |r| == Depth(p)
  {
    match p
    case NoPrefix => []
    case Comment(t, o) => CommentSpans(pos, o) + [Span(pos + |PrefixText(o)|, |CommentGroupText(t)|)]
  }

  /** Each comment's span covers that comment's `(?#...)` in the chain's text. */
  lemma {:induction false} CommentSpanCovers(pos: int, p: Prefix, k: nat)
    requires k < Depth(p)
    ensures
      var s := CommentSpans(pos, p)[k];
      pos <= s.start && 0 <= s.length && s.start + s.length <= pos + |PrefixText(p)|
      && PrefixText(p)[s.start - pos..s.start - pos + s.length] == CommentGroupText(CommentTexts(p)[k])
  {
    match p
    case Comment(t, o) =>
      var front := PrefixText(o);
      var last := CommentGroupText(t);
      assert PrefixText(p) == front + last;
      if k < Depth(o) {
        CommentSpanCovers(pos, o, k);
        var s := CommentSpans(pos, o)[k];
        assert CommentSpans(pos, p)[k] == s;
        assert CommentTexts(p)[k] == CommentTexts(o)[k];
        FrontSliceKept(front, last, s.start - pos, s.length, CommentGroupText(CommentTexts(o)[k]));
      } else {
        assert CommentSpans(pos, p)[k] == Span(pos + |front|, |last|);
        assert CommentTexts(p)[k] == t;
        BackOf(front, last);
      }
  }

  /** Each comment's span starts where the previous one ends. */
  lemma {:induction false} CommentSpansContiguous(pos: int, p: Prefix, k: nat)
    requires k + 1 < Depth(p)
    ensures CommentSpans(pos, p)[k + 1].start == CommentSpans(pos, p)[k].start + CommentSpans(pos, p)[k].length
  {
    match p
    case Comment(t, o) =>
      assert CommentSpans(pos, p)[k] == CommentSpans(pos, o)[k];
      if k + 1 < Depth(o) {
        CommentSpansContiguous(pos, o, k);
        assert CommentSpans(pos, p)[k + 1] == CommentSpans(pos, o)[k + 1];
      } else {
        CommentSpansEnd(pos, o);
      }
  }

  /** The first comment starts where the chain starts, and the last one ends where the chain ends. */
  lemma {:induction false} CommentSpansEnd(pos: int, p: Prefix)
    requires p.Comment?
    ensures CommentSpans(pos, p)[0].start == pos
    ensures CommentSpans(pos, p)[Depth(p) - 1].start + CommentSpans(pos, p)[Depth(p) - 1].length == pos + |PrefixText(p)|
  {
    match p
    case Comment(t, o) =>
      if o.Comment? {
        CommentSpansEnd(pos, o);
        assert CommentSpans(pos, p)[0] == CommentSpans(pos, o)[0];
      } else {
        assert CommentSpans(pos, p) == [Span(pos, |CommentGroupText(t)|)];
      }
  }

  /** In any text that holds a chain at `pos`, each comment's span holds that comment. */
  lemma CommentInText(t: string, pos: int, p: Prefix, k: nat)
    requires FoundAt(t, pos, PrefixText(p))
    requires k < Depth(p)
    ensures
      var s := CommentSpans(pos, p)[k];
      var g := CommentGroupText(CommentTexts(p)[k]);
      s.length == |g| && FoundAt(t, s.start, g)
  {
    var s := CommentSpans(pos, p)[k];
    CommentSpanCovers(pos, p, k);
    FoundInsideFound(t, pos, PrefixText(p), s.start, CommentGroupText(CommentTexts(p)[k]));
  }

  /** In the tree, each comment written before a node spans its own text. */
  lemma CommentInTree(root: Node, path: Path, k: nat)
    requires ValidPath(root, path) && AlignedAlong(root, path)
    requires SpanAfterPrefix(NodeAt(root, path)) && k < Depth(NodeAt(root, path).prefix)
    ensures
      var n := NodeAt(root, path);
      var s := CommentSpans(Position(root, 0, path), n.prefix)[k];
      var g := CommentGroupText(CommentTexts(n.prefix)[k]);
      s.length == |g| && FoundAt(Serialize(root), s.start, g)
  {
    PrefixInTree(root, path);
    CommentInText(Serialize(root), Position(root, 0, path), NodeAt(root, path).prefix, k);
  }

  /** The last comment written before a node ends where the node's span starts. */
  lemma LastCommentEndsAtSpan(root: Node, path: Path)
    requires ValidPath(root, path)
    requires SpanAfterPrefix(NodeAt(root, path)) && NodeAt(root, path).prefix.Comment?
    ensures
      var n := NodeAt(root, path);
      var s := CommentSpans(Position(root, 0, path), n.prefix)[Depth(n.prefix) - 1];
      s.start + s.length == GetSpan(root, path).start
  {
    var n := NodeAt(root, path);
    CommentSpansEnd(Position(root, 0, path), n.prefix);
    AfterPrefixSpan(n, Position(root, 0, path));
  }

  // ---------------------------------------------------------------------
  // Values the unit tests pin down, odd ones included

  /** A parentless node's span starts after its prefix and covers the rest of its text. */
  lemma RootSpan(n: Node)
    requires !n.kind.Postfix?
    ensures GetSpan(n, []) == Span(|PrefixText(n.prefix)|, |Serialize(n)| - |PrefixText(n.prefix)|)
  {
  }

  /** A concatenation does not write its prefix but subtracts it from its length: empty with a comment, the length is negative. */
  lemma PrefixedEmptyConcatenation(p: Prefix)
    requires p.Comment?
    ensures GetSpan(Node(Concatenation, p, []), []).length == 0 - |PrefixText(p)| < 0
  {
    PrefixTextLength(p);
  }

  /** A group without a prefix and with one child writes its opening, the child, and `)`. */
  lemma OneChildGroupText(n: Node)
    requires n.kind.Group? && n.prefix == NoPrefix && |n.children| == 1
    ensures Serialize(n) == Opening(n.kind.group, true) + Serialize(n.children[0]) + ")"
  {
    OneText(n.children);
    assert Unprefixed(n) == Opening(n.kind.group, true) + Concat(Texts(n.children)) + ")";
  }

  /** The first child of a group without a prefix is placed at the group's offset. */
  lemma FirstChildOfGroup(n: Node)
    requires n.kind.Group? && n.prefix == NoPrefix && |n.children| > 0
    ensures Position(n, 0, [0]) == GroupOffset(n.kind.group)
  {
    assert Texts(n.children)[..0] == [];
    assert ChildPos(n, 0, 0) == GroupOffset(n.kind.group);
  }

  /** The text of a lookaround around one character. */
  lemma LookaroundOfCharacter(lookahead: bool, a: Node)
    requires a == Node(Leaf(Character('a')), NoPrefix, [])
    ensures
      var root := Node(Group(Lookaround(lookahead, true)), NoPrefix, [a]);
      Serialize(root) == (if lookahead then "(?=a)" else "(?<=a)")
      && Position(root, 0, [0]) == GroupOffset(Lookaround(lookahead, true))
  {
    var root := Node(Group(Lookaround(lookahead, true)), NoPrefix, [a]);
    assert Serialize(a) == "a";
    OneChildGroupText(root);
    FirstChildOfGroup(root);
  }

  /** The child of `(?=a)` gets start 4, where the text holds `)`; `a` is at 3. */
  lemma LookaheadChildMisplaced()
    ensures
      var root := Node(Group(Lookaround(true, true)), NoPrefix, [Node(Leaf(Character('a')), NoPrefix, [])]);
      Serialize(root) == "(?=a)" && GetSpan(root, [0]).start == 4 && Serialize(root)[4] == ')'
  {
    LookaroundOfCharacter(true, Node(Leaf(Character('a')), NoPrefix, []));
  }

  /** The child of `(?<=a)` gets start 3, inside the opening `(?<=`. */
  lemma LookbehindChildMisplaced()
    ensures
      var root := Node(Group(Lookaround(false, true)), NoPrefix, [Node(Leaf(Character('a')), NoPrefix, [])]);
      Serialize(root) == "(?<=a)" && GetSpan(root, [0]).start == 3 && Serialize(root)[3] == '='
  {
    LookaroundOfCharacter(false, Node(Leaf(Character('a')), NoPrefix, []));
  }

  // ---------------------------------------------------------------------
  // The lazy node without a child, as `LazyNode` is written

  /**
   * `LazyNode.GetSpanStart()` as written: `??` binds looser than `+`, so
   * without a child the whole sum is null and the start is 0.
   */
  function WrittenSpanStart(n: Node, pos: int): int {
    if n.kind == Postfix(Lazy) && |n.children| == 0 then 0 else SpanStart(n, pos)
  }

  /** `LazyNode.GetSpanLength()` as written: without a child, 0. */
  function WrittenSpanLength(n: Node): int {
    if n.kind == Postfix(Lazy) && |n.children| == 0 then 0 else SpanLength(n)
  }

  /** `GetSpan()` with the lazy node's overrides as written. */
  function WrittenSpan(root: Node, path: Path): Span
    requires ValidPath(root, path)
  {
    var n := NodeAt(root, path);
    Span(WrittenSpanStart(n, Position(root, 0, path)), WrittenSpanLength(n))
  }

  /** As written, a lazy node without a child has span (0, 0) wherever it is. */
  lemma ChildlessLazySpan(root: Node, path: Path)
    requires ValidPath(root, path) && NodeAt(root, path) == Node(Postfix(Lazy), NodeAt(root, path).prefix, [])
    ensures WrittenSpan(root, path) == Span(0, 0)
  {
  }

  /** In `a` followed by a childless lazy node (text `a?`), the written span is (0, 0), the `?` is at (1, 1). */
  lemma ChildlessLazyMisplaced()
    ensures
      var lazy := Node(Postfix(Lazy), NoPrefix, []);
      var root := Node(Concatenation, NoPrefix, [Node(Leaf(Character('a')), NoPrefix, []), lazy]);
      Serialize(root) == "a?" && WrittenSpan(root, [1]) == Span(0, 0)
      && GetSpan(root, [1]) == Span(1, 1) && Serialize(root)[1..2] == "?"
  {
    var a := Node(Leaf(Character('a')), NoPrefix, []);
    var lazy := Node(Postfix(Lazy), NoPrefix, []);
    var root := Node(Concatenation, NoPrefix, [a, lazy]);
    assert Serialize(a) == "a";
    assert Serialize(lazy) == "?";
    assert Texts(root.children)[0] == "a";
    assert Texts(root.children)[1] == "?";
    assert Texts(root.children) == ["a", "?"];
    ConcatTwo("a", "?");
    assert Texts(root.children)[..1] == ["a"];
    ChildAt(root, 1);
  }

  /** The written span differs from the corrected one only for a lazy node without a child. */
  lemma WrittenAgreesWithChild(n: Node, pos: int)
    ensures !(n.kind == Postfix(Lazy) && |n.children| == 0) ==>
      WrittenSpanStart(n, pos) == SpanStart(n, pos) && WrittenSpanLength(n) == SpanLength(n)
  {
  }
}
