/**
 * How long each kind of node's text is, given its prefix and its children,
 * and the span of a parentless leaf.
 */
module Lengths {
  import opened Comments
  import opened Strings
  import opened Nodes
  import opened Spans

  /** A concatenation is exactly as long as its children together; with no children it writes nothing. */
  lemma ConcatenationLength(n: Node)
    requires n.kind.Concatenation?
    ensures |Serialize(n)| == TotalLength(Texts(n.children))
    ensures |n.children| == 0 ==> Serialize(n) == ""
  {
    ConcatLength(Texts(n.children));
  }

  /** A group adds its prefix, its opening and `)` to its children's texts. */
  lemma GroupLength(n: Node)
    requires n.kind.Group?
    ensures |Serialize(n)|
         == |PrefixText(n.prefix)| + |Opening(n.kind.group, |n.children| > 0)| + TotalLength(Texts(n.children)) + 1
  {
    ConcatLength(Texts(n.children));
  }

  /** A named group without a prefix is its name, five delimiter characters and its children. */
  lemma NamedGroupLength(n: Node)
    requires n.kind.Group? && n.kind.group.Named? && n.prefix == NoPrefix
    ensures |Serialize(n)| == |n.kind.group.name| + 5 + TotalLength(Texts(n.children))
  {
    GroupLength(n);
  }

  /**
   * After its prefix a named group writes `(?`, then the name between `'` and
   * `'` when it uses quotes or between `<` and `>` otherwise, then its
   * children one after the other, then `)`.
   */
  lemma NamedGroupFields(name: string, quotes: bool, p: Prefix, cs: seq<Node>)
    ensures
      var t := Serialize(Node(Group(Named(name, quotes)), p, cs));
      var k := |PrefixText(p)|;
      var body := Concat(Texts(cs));
      |t| == k + |name| + 5 + |body| && t[..k] == PrefixText(p)
      && t[k..k + 3] == (if quotes then "(?'" else "(?<") && t[k + 3..k + 3 + |name|] == name
      && t[k + 3 + |name|] == (if quotes then '\'' else '>') && t[|t| - 1] == ')'
  {
    var t := Serialize(Node(Group(Named(name, quotes)), p, cs));
    NamedGroupText(name, quotes, p, cs);
    DelimitedFields(t, PrefixText(p), if quotes then "(?'" else "(?<", name, if quotes then '\'' else '>', Concat(Texts(cs)));
  }

  /** Between the closing delimiter of the name and the final `)` a named group writes its children. */
  lemma NamedGroupBody(name: string, quotes: bool, p: Prefix, cs: seq<Node>)
    ensures
      var t := Serialize(Node(Group(Named(name, quotes)), p, cs));
      var k := |PrefixText(p)|;
      k + 4 + |name| <= |t| - 1 && t[k + 4 + |name|..|t| - 1] == Concat(Texts(cs))
  {
    var t := Serialize(Node(Group(Named(name, quotes)), p, cs));
    NamedGroupText(name, quotes, p, cs);
    DelimitedFields(t, PrefixText(p), if quotes then "(?'" else "(?<", name, if quotes then '\'' else '>', Concat(Texts(cs)));
  }

  lemma NamedGroupText(name: string, quotes: bool, p: Prefix, cs: seq<Node>)
    ensures
      Serialize(Node(Group(Named(name, quotes)), p, cs))
        == PrefixText(p) + ((if quotes then "(?'" else "(?<") + name + [if quotes then '\'' else '>'] + Concat(Texts(cs)) + ")")
  {
    assert Opening(Named(name, quotes), |cs| > 0) == (if quotes then "(?'" else "(?<") + name + [if quotes then '\'' else '>'];
  }

  /** Where each piece of `p`, the opening `open name close`, `body` and `)` lies in their concatenation `t`. */
  lemma DelimitedFields(t: string, p: string, open: string, name: string, close: char, body: string)
    requires |open| == 3 && t == p + (open + name + [close] + body + ")")
    ensures
      var k := |p|;
      |t| == k + |name| + 5 + |body| && t[..k] == p && t[k..k + 3] == open && t[k + 3..k + 3 + |name|] == name
      && t[k + 3 + |name|] == close && t[k + 4 + |name|..|t| - 1] == body && t[|t| - 1] == ')'
  {
    var rest := open + name + [close] + body + ")";
    var k := |p|;
    assert t[k..] == rest;
    assert rest[..3] == open;
    assert rest[3..3 + |name|] == name;
    assert rest[4 + |name|..|rest| - 1] == body;
  }

  /** A non-capturing group without children or prefix is `(?:)`. */
  lemma EmptyNonCaptureGroup()
    ensures Serialize(Node(Group(NonCapture), NoPrefix, [])) == "(?:)"
  {
    assert Texts([]) == [];
  }

  /** A quantifier or lazy node with an operand adds its prefix and operator; `?`, `+`, `*` and lazy add one character. */
  lemma PostfixLength(n: Node)
    requires n.kind.Postfix? && |n.children| > 0
    ensures |Serialize(n)| == |Serialize(n.children[0])| + |PrefixText(n.prefix)| + |Operator(n.kind.op)|
    ensures (n.kind.op.QuestionMark? || n.kind.op.Plus? || n.kind.op.Star? || n.kind.op.Lazy?)
            ==> |Operator(n.kind.op)| == 1
  {
    PrefixPlacement(n);
  }

  /** Every anchor except `^` and `$` is an escape of two characters after the prefix. */
  lemma AnchorLength(n: Node)
    requires n.kind.Leaf? && n.kind.leaf.Anchor?
    ensures |Serialize(n)| == |PrefixText(n.prefix)| + (if n.kind.leaf.anchor.StartOfLine? || n.kind.leaf.anchor.EndOfLine? then 1 else 2)
  {
  }

  /** A parentless leaf's span starts after its prefix and covers its own text. */
  lemma LeafSpan(n: Node)
    requires n.kind.Leaf?
    ensures GetSpan(n, []) == Span(|PrefixText(n.prefix)|, |LeafText(n.kind.leaf)|)
  {
    assert Serialize(n) == PrefixText(n.prefix) + LeafText(n.kind.leaf);
  }

  /** `(?#This is a comment.)\G` is written back as such. */
  lemma PrefixedContiguousMatchText()
    ensures Serialize(Node(Leaf(Anchor(ContiguousMatch)), Comment("This is a comment.", NoPrefix), []))
         == "(?#This is a comment.)\\G"
  {
    var t := "This is a comment.";
    var n := Node(Leaf(Anchor(ContiguousMatch)), Comment(t, NoPrefix), []);
    assert Serialize(n) == PrefixText(n.prefix) + "\\G";
    assert PrefixText(n.prefix) == "" + CommentGroupText(t);
  }

  /** After that comment of 22 characters, the `\G` has the span (22, 2). */
  lemma PrefixedContiguousMatchSpan()
    ensures GetSpan(Node(Leaf(Anchor(ContiguousMatch)), Comment("This is a comment.", NoPrefix), []), []) == Span(22, 2)
  {
    var p := Comment("This is a comment.", NoPrefix);
    assert |PrefixText(p)| == 22;
    LeafSpan(Node(Leaf(Anchor(ContiguousMatch)), p, []));
  }

  /** A character has the span (0, 1), or (5, 1) after `(?#X)`. */
  lemma CharacterSpans(c: char)
    ensures GetSpan(Node(Leaf(Character(c)), NoPrefix, []), []) == Span(0, 1)
    ensures GetSpan(Node(Leaf(Character(c)), Comment("X", NoPrefix), []), []) == Span(5, 1)
  {
    LeafSpan(Node(Leaf(Character(c)), NoPrefix, []));
    LeafSpan(Node(Leaf(Character(c)), Comment("X", NoPrefix), []));
  }

  /** After its prefix a category node writes `\`, then `P` exactly when negated, then the category between braces. */
  lemma UnicodeCategoryFields(category: string, negated: bool, p: Prefix)
    ensures
      var t := Serialize(Node(Leaf(UnicodeCategory(category, negated)), p, []));
      var k := |PrefixText(p)|;
      |t| == k + |category| + 4 && t[..k] == PrefixText(p) && t[k] == '\\' && (t[k + 1] == 'P' <==> negated)
      && t[k + 2] == '{' && t[k + 3..|t| - 1] == category && t[|t| - 1] == '}'
  {
    var rest := "\\" + (if negated then "P" else "p") + "{" + category + "}";
    var n := Node(Leaf(UnicodeCategory(category, negated)), p, []);
    var t := Serialize(n);
    CategoryText(n);
    var k := |PrefixText(p)|;
    assert t[k..] == rest;
    assert rest[3..|rest| - 1] == category;
  }

  lemma CategoryText(n: Node)
    requires n.kind.Leaf? && n.kind.leaf.UnicodeCategory?
    ensures Serialize(n)
         == PrefixText(n.prefix) + ("\\" + (if n.kind.leaf.negated then "P" else "p") + "{" + n.kind.leaf.category + "}")
  {
    assert Unprefixed(n) == LeafText(n.kind.leaf);
  }

  /** `\p{IsBasicLatin}` and `\P{IsBasicLatin}`. */
  lemma UnicodeCategoryTexts()
    ensures Serialize(Node(Leaf(UnicodeCategory("IsBasicLatin", false)), NoPrefix, [])) == "\\p{IsBasicLatin}"
    ensures Serialize(Node(Leaf(UnicodeCategory("IsBasicLatin", true)), NoPrefix, [])) == "\\P{IsBasicLatin}"
  {
    CategoryText(Node(Leaf(UnicodeCategory("IsBasicLatin", false)), NoPrefix, []));
    CategoryText(Node(Leaf(UnicodeCategory("IsBasicLatin", true)), NoPrefix, []));
    BasicLatin("IsBasicLatin");
  }

  lemma BasicLatin(c: string)
    requires c == "IsBasicLatin"
    ensures "" + ("\\" + "p" + "{" + c + "}") == "\\p{IsBasicLatin}"
    ensures "" + ("\\" + "P" + "{" + c + "}") == "\\P{IsBasicLatin}"
  {
  }

  /** `\b`, `\B` and `\G` without a prefix. */
  lemma BoundaryTexts()
    ensures Serialize(Node(Leaf(Anchor(WordBoundary)), NoPrefix, [])) == "\\b"
    ensures Serialize(Node(Leaf(Anchor(NonWordBoundary)), NoPrefix, [])) == "\\B"
    ensures Serialize(Node(Leaf(Anchor(ContiguousMatch)), NoPrefix, [])) == "\\G"
  {
  }
}
