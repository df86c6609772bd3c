/**
 * The regex syntax tree. Every node has a kind (its node class and the
 * fields that class adds), a prefix (the comments written before it) and a
 * list of children; `Serialize` is the classes' `ToString`, which writes the
 * node back as pattern text.
 */
module Nodes {
  import opened Comments
  import opened Strings
  import Decimal

  datatype Option<T> = None | Some(value: T)

  /** A bound of a counted quantifier: `N`, and the digit text `OriginalN` it was read from, if any. */
  datatype RawCount = Count(value: nat, original: Option<string>)

  /** The constructors keep `OriginalN` only together with the number it denotes. */
  type Count = c: RawCount | c.original.Some? ==> Decimal.IsDecimal(c.original.value) && Decimal.Value(c.original.value) == c.value
    witness Count(0, None)

  datatype AnchorKind =
    | StartOfString      // \A
    | EndOfString        // \z
    | EndOfStringZ       // \Z
    | StartOfLine        // ^
    | EndOfLine          // $
    | WordBoundary       // \b
    | NonWordBoundary    // \B
    | ContiguousMatch    // \G

  /** Node classes whose text does not depend on their children. */
  datatype LeafKind =
    | Character(ch: char)
    | Empty
    | AnyCharacter
    | Anchor(anchor: AnchorKind)
    | EscapeCharacter(escape: string)
    | CharacterClassShorthand(shorthand: char)
    | UnicodeCategory(category: string, negated: bool)
    | Backreference(groupNumber: nat)
    | NamedReference(name: string, useQuotes: bool, useK: bool)

  /** Group classes: an opening text, the children one after the other, then `)`. */
  datatype GroupKind =
    | Capture
    | NonCapture
    | Atomic
    | Named(name: string, useQuotes: bool)
    | Balancing(balancedGroupName: string, name: string, useQuotes: bool)
    | Lookaround(lookahead: bool, positive: bool)
    | Conditional
    | ModeModifier(modifiers: string)

  /** Quantifiers and the lazy wrapper: the operand, then the prefix, then the operator. */
  datatype PostfixKind =
    | QuestionMark
    | Plus
    | Star
    | N(n: Count)
    | NOrMore(n: Count)
    | NM(n: Count, m: Count)
    | Lazy

  /** One case per node class (grouped as above), carrying the fields `CopyInstance` copies. */
  datatype Kind =
    | Leaf(leaf: LeafKind)
    | Concatenation
    | Alternation
    | CharacterClass(negated: bool)
    | CharacterClassCharacterSet
    | Group(group: GroupKind)
    | Postfix(op: PostfixKind)

  datatype Node = Node(kind: Kind, prefix: Prefix, children: seq<Node>)

  /** Every kind except concatenations and postfix nodes writes its prefix before anything else. */
  predicate PrintsPrefixFirst(k: Kind) {
    !k.Concatenation? && !k.Postfix?
  }

  /** The digits of a bound: `OriginalN` when kept, otherwise `N.ToString()`. */
  function CountText(c: Count): (s: string)
    ensures Decimal.IsDecimal(s) && Decimal.Value(s) == c.value
  {
    match c.original
    case Some(t) => t
    case None => Decimal.ValueOfText(c.value); Decimal.Text(c.value)
  }

  function AnchorText(a: AnchorKind): string {
    match a
    case StartOfString => "\\A"
    case EndOfString => "\\z"
    case EndOfStringZ => "\\Z"
    case StartOfLine => "^"
    case EndOfLine => "$"
    case WordBoundary => "\\b"
    case NonWordBoundary => "\\B"
    case ContiguousMatch => "\\G"
  }

  /** The text of a leaf after its prefix. */
  function LeafText(k: LeafKind): string {
    match k
    case Character(c) => [c]
    case Empty => ""
    case AnyCharacter => "."
    case Anchor(a) => AnchorText(a)
    case EscapeCharacter(e) => "\\" + e
    case CharacterClassShorthand(c) => "\\" + [c]
    case UnicodeCategory(category, negated) => "\\" + (if negated then "P" else "p") + "{" + category + "}"
    case Backreference(g) => "\\" + Decimal.Text(g)
    case NamedReference(name, useQuotes, useK) =>
      "\\" + (if useK then "k" else "") + (if useQuotes then "'" + name + "'" else "<" + name + ">")
  }

  /** The text a group writes between its prefix and its first child. */
  function Opening(k: GroupKind, hasChildren: bool): string {
    match k
    case Capture => "("
    case NonCapture => "(?:"
    case Atomic => "(?>"
    case Named(name, useQuotes) =>
      if useQuotes then "(?'" + name + "'" else "(?<" + name + ">"
    case Balancing(balanced, name, useQuotes) =>
      if useQuotes then "(?'" + name + "-" + balanced + "'" else "(?<" + name + "-" + balanced + ">"
    case Lookaround(lookahead, positive) =>
      "(?" + (if lookahead then "" else "<") + (if positive then "=" else "!")
    case Conditional => "(?"
    case ModeModifier(modifiers) => "(?" + modifiers + (if hasChildren then ":" else "")
  }

  /** The operator a postfix node writes after its operand and prefix. */
  function Operator(k: PostfixKind): string {
    match k
    case QuestionMark => "?"
    case Plus => "+"
    case Star => "*"
    case N(n) => "{" + CountText(n) + "}"
    case NOrMore(n) => "{" + CountText(n) + ",}"
    case NM(n, m) => "{" + CountText(n) + "," + CountText(m) + "}"
    case Lazy => "?"
  }

  /** `CharacterSet` is the first child when that child is a character set. */
  predicate HasCharacterSet(n: Node) {
    |n.children| > 0 && n.children[0].kind.CharacterClassCharacterSet?
  }

  /** `Subtraction` is the second child when that child is a character class. */
  predicate HasSubtraction(n: Node) {
    |n.children| > 1 && n.children[1].kind.CharacterClass?
  }

  /** The node's text, as its class's `ToString` writes it. */
  function Serialize(n: Node): string
    decreases n, 2
  {
    match n.kind
    case Concatenation => Concat(Texts(n.children))
    case Postfix(op) => OperandText(n) + PrefixText(n.prefix) + Operator(op)
    case _ => PrefixText(n.prefix) + Unprefixed(n)
  }

  /** What a node that writes its prefix first writes after the prefix. */
  function Unprefixed(n: Node): string
    decreases n, 1
  {
    var texts := Texts(n.children);
    match n.kind
    case Leaf(k) => LeafText(k)
    case Alternation => Join(texts)
    case CharacterClass(negated) =>
      "[" + (if negated then "^" else "")
      + (if HasCharacterSet(n) then texts[0] else "")
      + (if HasSubtraction(n) then "-" + texts[1] else "")
      + "]"
    case CharacterClassCharacterSet => Concat(texts)
    case Group(g) => Opening(g, |n.children| > 0) + Concat(texts) + ")"
    case _ => ""
  }

  /** The texts of a list of nodes, in order. */
  function Texts(cs: seq<Node>): (ts: seq<string>)
    decreases cs, 0
    ensures |ts| == |cs|
  {
    seq(|cs|, i requires 0 <= i < |cs| => Serialize(cs[i]))
  }

  /** `ChildNodes.FirstOrDefault()?.ToString()`, the operand of a postfix node. */
  function OperandText(n: Node): string
    decreases n, 0
  {
    if |n.children| > 0 then Serialize(n.children[0]) else ""
  }

  /** Where each kind writes its prefix: first, between operand and operator, or not at all. */
  lemma PrefixPlacement(n: Node)
    ensures PrintsPrefixFirst(n.kind) ==> Serialize(n) == PrefixText(n.prefix) + Unprefixed(n)
    ensures n.kind.Postfix? ==> Serialize(n) == OperandText(n) + PrefixText(n.prefix) + Operator(n.kind.op)
    ensures n.kind.Concatenation? ==> Serialize(n) == Concat(Texts(n.children))
  {
  }

  /** Apart from its prefix, a node's text does not depend on its prefix; a concatenation's not at all. */
  lemma PrefixIndependent(n: Node, q: Prefix)
    ensures Unprefixed(n.(prefix := q)) == Unprefixed(n)
    ensures n.kind.Concatenation? ==> Serialize(n.(prefix := q)) == Serialize(n)
  {
  }

  /** Exchanging one child changes one text in the list of child texts. */
  lemma {:induction false} TextsUpdate(cs: seq<Node>, i: nat, m: Node)
    requires i < |cs|
    ensures Texts(cs[i := m]) == Texts(cs)[i := Serialize(m)]
  {
  }

  /** The texts of two lists one after the other. */
  lemma TextsAppend(a: seq<Node>, b: seq<Node>)
    ensures Texts(a + b) == Texts(a) + Texts(b)
  {
    var ts := Texts(a + b);
    forall k | 0 <= k < |a| ensures ts[k] == Texts(a)[k] {
      assert (a + b)[k] == a[k];
    }
    forall k | 0 <= k < |b| ensures ts[|a| + k] == Texts(b)[k] {
      assert (a + b)[|a| + k] == b[k];
    }
    assert ts[..|a|] == Texts(a);
    assert ts[|a|..] == Texts(b);
    assert ts == ts[..|a|] + ts[|a|..];
  }

  /** One entry of `Texts`. */
  lemma TextsAt(cs: seq<Node>, k: nat)
    requires k < |cs|
    ensures Texts(cs)[k] == Serialize(cs[k])
  {
  }

  /** The texts of a slice of a list are that slice of the list's texts. */
  lemma TextsSlice(cs: seq<Node>, i: nat, j: nat)
    requires i <= j <= |cs|
    ensures Texts(cs[i..j]) == Texts(cs)[i..j]
  {
    var a, b, c := cs[..i], cs[i..j], cs[j..];
    CutThree(cs, i, j);
    TextsAppend(a + b, c);
    TextsAppend(a, b);
    MiddleOf(Texts(a), Texts(b), Texts(c));
  }

  /** The texts of a list with the entries from `i` up to `j` replaced by `m`. */
  lemma TextsSplice(cs: seq<Node>, i: nat, j: nat, m: Node)
    requires i <= j <= |cs|
    ensures Texts(cs[..i] + [m] + cs[j..]) == Texts(cs)[..i] + [Serialize(m)] + Texts(cs)[j..]
  {
    TextsAppend(cs[..i] + [m], cs[j..]);
    TextsAppend(cs[..i], [m]);
    TextsSlice(cs, 0, i);
    TextsSlice(cs, j, |cs|);
    TextsAt([m], 0);
    assert cs[0..i] == cs[..i];
    assert cs[j..|cs|] == cs[j..];
  }

  /** The texts of a list without its entry `i`. */
  lemma TextsDrop(cs: seq<Node>, i: nat)
    requires i < |cs|
    ensures Texts(cs[..i] + cs[i + 1..]) == Texts(cs)[..i] + Texts(cs)[i + 1..]
  {
    TextsAppend(cs[..i], cs[i + 1..]);
    TextsSlice(cs, 0, i);
    TextsSlice(cs, i + 1, |cs|);
    assert cs[0..i] == cs[..i];
    assert cs[i + 1..|cs|] == cs[i + 1..];
  }

  /** The text of a single child. */
  lemma OneText(cs: seq<Node>)
    requires |cs| == 1
    ensures Concat(Texts(cs)) == Serialize(cs[0])
  {
    assert Texts(cs) == [Serialize(cs[0])];
    ConcatOne(Serialize(cs[0]));
  }

  /** The texts of two children. */
  lemma TextsTwo(cs: seq<Node>)
    requires |cs| == 2
    ensures Texts(cs) == [Serialize(cs[0]), Serialize(cs[1])]
  {
  }

  /**
   * The text of an alternation: its prefix, then its alternates separated by
   * one `|` each. Alternate `i` follows the earlier alternates and one
   * separator per earlier alternate, and the whole text has one separator
   * fewer than alternates.
   */
  lemma AlternationText(n: Node, i: nat)
    requires n.kind.Alternation? && i < |n.children|
    ensures
      var ts := Texts(n.children);
      Serialize(n) == PrefixText(n.prefix) + JoinedBefore(ts, i) + ts[i] + JoinedAfter(ts, i)
    ensures |JoinedBefore(Texts(n.children), i)| == TotalLength(Texts(n.children)[..i]) + i
    ensures |Serialize(n)| == |PrefixText(n.prefix)| + TotalLength(Texts(n.children)) + |n.children| - 1
  {
    var ts := Texts(n.children);
    assert Serialize(n) == PrefixText(n.prefix) + Join(ts);
    JoinSplit(ts, i);
    JoinLength(ts);
    Prepend3(PrefixText(n.prefix), JoinedBefore(ts, i), ts[i], JoinedAfter(ts, i));
  }

  /** The text of an alternation of two alternates: the two separated by one `|`. */
  lemma {:induction false} TwoAlternatesText(n: Node)
    requires n.kind.Alternation? && |n.children| == 2
    ensures Serialize(n) == PrefixText(n.prefix) + Serialize(n.children[0]) + "|" + Serialize(n.children[1])
  {
    var us := Texts(n.children);
    assert us[1..] == [us[1]];
    assert Join(us) == us[0] + "|" + us[1];
    assert Serialize(n) == PrefixText(n.prefix) + Join(us);
    Prepend3(PrefixText(n.prefix), us[0], "|", us[1]);
  }

  // ---------------------------------------------------------------------
  // Accessors, documented shapes, and constructors with logic of their own

  /** `CharacterClassNode.CharacterSet`: the first child as a character set, else null. */
  function CharacterSet(n: Node): Option<Node>
    requires n.kind.CharacterClass?
  {
    if HasCharacterSet(n) then Some(n.children[0]) else None
  }

  /** `CharacterClassNode.Subtraction`: the second child as a character class, else null. */
  function Subtraction(n: Node): Option<Node>
    requires n.kind.CharacterClass?
  {
    if HasSubtraction(n) then Some(n.children[1]) else None
  }

  /** `ConditionalGroupNode.Condition`: the first child, if any. */
  function Condition(n: Node): Option<Node>
    requires n.kind == Group(Conditional)
  {
    if |n.children| > 0 then Some(n.children[0]) else None
  }

  /** `ConditionalGroupNode.Alternates`: the second child, if any. */
  function Alternates(n: Node): Option<Node>
    requires n.kind == Group(Conditional)
  {
    if |n.children| > 1 then Some(n.children[1]) else None
  }

  /** The documented shape of a class: a character set, then optionally a class to subtract. */
  predicate WellFormedClass(n: Node) {
    n.kind.CharacterClass? && (|n.children| == 1 || |n.children| == 2)
    && HasCharacterSet(n) && (|n.children| == 2 ==> HasSubtraction(n))
  }

  /**
   * The documented shape of a conditional: a condition, which is a group,
   * then optionally a concatenation or a two-way alternation.
   */
  predicate WellFormedConditional(n: Node) {
    n.kind == Group(Conditional) && (|n.children| == 1 || |n.children| == 2)
    && n.children[0].kind.Group?
    && (|n.children| == 2 ==>
          n.children[1].kind.Concatenation?
          || (n.children[1].kind.Alternation? && |n.children[1].children| == 2))
  }

  /** In a well-formed class both accessors find their child, the subtraction exactly when there are two. */
  lemma {:induction false} WellFormedClassText(n: Node)
    requires WellFormedClass(n)
    ensures CharacterSet(n) == Some(n.children[0])
    ensures Subtraction(n).Some? <==> |n.children| == 2
    ensures Serialize(n)
         == PrefixText(n.prefix) + "[" + (if n.kind.negated then "^" else "") + Serialize(n.children[0])
            + (if |n.children| == 2 then "-" + Serialize(n.children[1]) else "") + "]"
  {
    var p := PrefixText(n.prefix);
    var neg := if n.kind.negated then "^" else "";
    var a := Serialize(n.children[0]);
    var sub := if |n.children| == 2 then "-" + Serialize(n.children[1]) else "";
    assert Texts(n.children)[0] == a;
    if |n.children| == 2 {
      assert Texts(n.children)[1] == Serialize(n.children[1]);
    }
    assert Unprefixed(n) == "[" + neg + a + sub + "]";
    assert Serialize(n) == p + Unprefixed(n);
    Prepend5(p, "[", neg, a, sub, "]");
  }

  /** A well-formed conditional writes its condition, then its then-branch (if any). */
  lemma ConditionalText(n: Node)
    requires WellFormedConditional(n)
    ensures Condition(n) == Some(n.children[0])
    ensures Alternates(n).Some? <==> |n.children| == 2
    ensures |n.children| == 1 ==> Serialize(n) == PrefixText(n.prefix) + "(?" + Serialize(n.children[0]) + ")"
    ensures |n.children| == 2 ==>
      Serialize(n) == PrefixText(n.prefix) + "(?" + Serialize(n.children[0]) + Serialize(n.children[1]) + ")"
  {
    if |n.children| == 1 {
      ConditionText(n);
    } else {
      ConditionThenText(n);
    }
  }

  lemma ConditionText(n: Node)
    requires n.kind == Group(Conditional) && |n.children| == 1
    ensures Serialize(n) == PrefixText(n.prefix) + "(?" + Serialize(n.children[0]) + ")"
  {
    var p := PrefixText(n.prefix);
    var ts := Texts(n.children);
    assert Serialize(n) == p + ("(?" + Concat(ts) + ")");
    assert ts == [Serialize(n.children[0])];
    ConcatOne(ts[0]);
    Prepend3(p, "(?", ts[0], ")");
  }

  lemma ConditionThenText(n: Node)
    requires n.kind == Group(Conditional) && |n.children| == 2
    ensures Serialize(n) == PrefixText(n.prefix) + "(?" + Serialize(n.children[0]) + Serialize(n.children[1]) + ")"
  {
    var p := PrefixText(n.prefix);
    var ts := Texts(n.children);
    assert Serialize(n) == p + ("(?" + Concat(ts) + ")");
    TextsTwo(n.children);
    ConcatTwo(ts[0], ts[1]);
    WrapTwo(p, "(?", Concat(ts), ts[0], ts[1], ")");
  }

  /** With an alternation, the then- and else-branches are separated by one `|`. */
  lemma {:induction false} ConditionalAlternationText(n: Node)
    requires WellFormedConditional(n) && |n.children| == 2 && n.children[1].kind.Alternation?
    ensures
      var alternates := n.children[1];
      Serialize(n)
        == PrefixText(n.prefix) + "(?" + Serialize(n.children[0])
           + PrefixText(alternates.prefix) + Serialize(alternates.children[0]) + "|" + Serialize(alternates.children[1]) + ")"
  {
    var alternates := n.children[1];
    ConditionalText(n);
    TwoAlternatesText(alternates);
    InsertFour(PrefixText(n.prefix) + "(?" + Serialize(n.children[0]), PrefixText(alternates.prefix),
               Serialize(alternates.children[0]), "|", Serialize(alternates.children[1]), ")");
  }

  /** `new CharacterClassNode(characterSet, negated)`. */
  function CharacterClassNode(characterSet: Node, negated: bool): (r: Node)
    requires characterSet.kind.CharacterClassCharacterSet?
    ensures WellFormedClass(r) && r.kind.negated == negated
    ensures CharacterSet(r) == Some(characterSet) && Subtraction(r) == None
    ensures Serialize(r) == "[" + (if negated then "^" else "") + Serialize(characterSet) + "]"
  {
    var r := Node(CharacterClass(negated), NoPrefix, [characterSet]);
    assert Texts(r.children)[0] == Serialize(characterSet);
    assert Serialize(r) == "" + Unprefixed(r);
    r
  }

  /** `new CharacterClassNode(characterSet, subtraction, negated)`. */
  function CharacterClassWithSubtraction(characterSet: Node, subtraction: Node, negated: bool): (r: Node)
    requires characterSet.kind.CharacterClassCharacterSet? && subtraction.kind.CharacterClass?
    ensures WellFormedClass(r) && r.kind.negated == negated
    ensures CharacterSet(r) == Some(characterSet) && Subtraction(r) == Some(subtraction)
    ensures Serialize(r)
         == "[" + (if negated then "^" else "") + Serialize(characterSet) + "-" + Serialize(subtraction) + "]"
  {
    var r := Node(CharacterClass(negated), NoPrefix, [characterSet, subtraction]);
    assert Texts(r.children)[0] == Serialize(characterSet);
    assert Texts(r.children)[1] == Serialize(subtraction);
    var x := "[" + (if negated then "^" else "") + Serialize(characterSet);
    assert Unprefixed(r) == x + ("-" + Serialize(subtraction)) + "]";
    Regroup(x, "-", Serialize(subtraction));
    assert Serialize(r) == "" + Unprefixed(r);
    r
  }

  /** `new ConditionalGroupNode(condition)`. */
  function ConditionalGroupNode(condition: Node): (r: Node)
    ensures r.kind == Group(Conditional)
    ensures Condition(r) == Some(condition) && Alternates(r) == None
    ensures Serialize(r) == "(?" + Serialize(condition) + ")"
  {
    var r := Node(Group(Conditional), NoPrefix, [condition]);
    assert Texts(r.children) == [Serialize(condition)];
    ConcatOne(Serialize(condition));
    r
  }

  /** `new ConditionalGroupNode(condition, alternates)`. */
  function ConditionalGroupWithAlternates(condition: Node, alternates: Node): (r: Node)
    ensures r.kind == Group(Conditional)
    ensures Condition(r) == Some(condition) && Alternates(r) == Some(alternates)
    ensures Serialize(r) == "(?" + Serialize(condition) + Serialize(alternates) + ")"
  {
    var r := Node(Group(Conditional), NoPrefix, [condition, alternates]);
    TextsTwo(r.children);
    ConcatTwo(Serialize(condition), Serialize(alternates));
    r
  }

  /** `new QuantifierNNode(string n, childNode)`: keeps the digits and reads N from them. */
  function QuantifierNFromText(n: string, childNode: Node): (r: Node)
    requires Decimal.IsDecimal(n)
    ensures r.kind.Postfix? && r.kind.op.N?
    ensures r.kind.op.n.value == Decimal.Value(n) && r.kind.op.n.original == Some(n)
    ensures r.children == [childNode]
    ensures Serialize(r) == Serialize(childNode) + "{" + n + "}"
  {
    Node(Postfix(N(Count(Decimal.Value(n), Some(n)))), NoPrefix, [childNode])
  }

  /** `new QuantifierNNode(int n, childNode)`: no digit text, so `ToString` writes N in decimal. */
  function QuantifierNFromNumber(n: nat, childNode: Node): (r: Node)
    ensures r.kind.Postfix? && r.kind.op.N?
    ensures r.kind.op.n.value == n && r.kind.op.n.original == None
    ensures r.children == [childNode]
    ensures Serialize(r) == Serialize(childNode) + "{" + Decimal.Text(n) + "}"
  {
    Node(Postfix(N(Count(n, None))), NoPrefix, [childNode])
  }

  // ---------------------------------------------------------------------
  // Copying

  /** A bound's copy is built from its text, as `new QuantifierNNode(OriginalN ?? N.ToString())` does. */
  function CopyCount(c: Count): (r: Count)
    ensures r.value == c.value && r.original.Some?
    ensures CountText(r) == CountText(c)
  {
    var t := CountText(c);
    Count(Decimal.Value(t), Some(t))
  }

  /** `CopyInstance` of a postfix node. */
  function CopyPostfix(k: PostfixKind): PostfixKind {
    match k
    case N(n) => N(CopyCount(n))
    case NOrMore(n) => NOrMore(CopyCount(n))
    case NM(n, m) => NM(CopyCount(n), CopyCount(m))
    case _ => k
  }

  /** `CopyInstance`: a fresh node of the same class with the same fields. */
  function CopyKind(k: Kind): Kind {
    match k
    case Postfix(op) => Postfix(CopyPostfix(op))
    case _ => k
  }

  /** The copy every edit makes of the nodes it keeps: each node copied with its prefix and children. */
  function DeepCopy(n: Node): Node
    decreases n, 1
  {
    Node(CopyKind(n.kind), n.prefix, CopyAll(n.children))
  }

  function CopyAll(cs: seq<Node>): (r: seq<Node>)
    decreases cs, 0
    ensures |r| == |cs|
  {
    seq(|cs|, i requires 0 <= i < |cs| => DeepCopy(cs[i]))
  }

  /** Copying keeps the class and every field the text depends on; the bounds keep their values. */
  lemma {:induction false} CopyKindKeeps(k: Kind)
    ensures !k.Postfix? ==> CopyKind(k) == k
    ensures k.Postfix? ==> CopyKind(k).Postfix? && Operator(CopyKind(k).op) == Operator(k.op)
    ensures k.Postfix? && (k.op.N? || k.op.NOrMore?) ==>
      CopyKind(k).op.n.value == k.op.n.value && CopyKind(k).op.n.original.Some?
    ensures k.Postfix? && k.op.NM? ==>
      CopyKind(k).op.n.value == k.op.n.value && CopyKind(k).op.m.value == k.op.m.value
    ensures k.Postfix? && !(k.op.N? || k.op.NOrMore? || k.op.NM?) ==> CopyKind(k) == k
  {
  }

  /** A copy of a tree writes the same text as the tree. */
  lemma {:induction false} DeepCopyText(n: Node)
    ensures Serialize(DeepCopy(n)) == Serialize(n)
    decreases n, 1
  {
    var c := DeepCopy(n);
    CopiesText(n.children);
    CopyKindKeeps(n.kind);
    if |n.children| > 0 {
      assert Texts(c.children)[0] == Texts(n.children)[0];
      assert OperandText(c) == OperandText(n);
    }
  }

  lemma {:induction false} CopiesText(cs: seq<Node>)
    ensures Texts(CopyAll(cs)) == Texts(cs)
    decreases cs, 0
  {
    forall i | 0 <= i < |cs| ensures Texts(CopyAll(cs))[i] == Texts(cs)[i] {
      DeepCopyText(cs[i]);
    }
  }

  /** Copying a copy changes nothing more: every bound already carries its digit text. */
  lemma {:induction false} DeepCopyIdempotent(n: Node)
    ensures DeepCopy(DeepCopy(n)) == DeepCopy(n)
    decreases n
  {
    var cs := CopyAll(n.children);
    assert DeepCopy(n) == Node(CopyKind(n.kind), n.prefix, cs);
    forall i | 0 <= i < |cs| ensures CopyAll(cs)[i] == cs[i] {
      assert cs[i] == DeepCopy(n.children[i]);
      DeepCopyIdempotent(n.children[i]);
    }
    assert CopyAll(cs) == cs;
  }
}
