/**
 * Concrete trees from the repository's unit tests, with the texts, spans,
 * descendants and edit results those tests expect.
 */
module Examples {
  import opened Comments
  import opened Strings
  import opened Nodes
  import opened Spans
  import opened Editor
  import opened Traversal

  function Char(c: char): Node {
    Node(Leaf(Character(c)), NoPrefix, [])
  }

  /** `a{5}`, built from the number 5, with the prefix `p`. */
  function QuantifiedA(p: Prefix): Node {
    Node(Postfix(N(Count(5, None))), p, [Char('a')])
  }

  /** The characters of `s` as the character set of a class. */
  function SetOf(s: string): Node {
    Node(CharacterClassCharacterSet, NoPrefix, Word(s).children)
  }

  /** `[a]`. */
  function ClassA(): Node {
    CharacterClassNode(SetOf("a"), false)
  }

  /** `[abc-[a]]`, or `[^abc-[a]]`. */
  function ClassWithSubtraction(negated: bool): Node {
    CharacterClassWithSubtraction(SetOf("abc"), ClassA(), negated)
  }

  /** `a{5}` with its prefix between operand and operator. */
  lemma QuantifierText(withPrefix: bool)
    ensures Serialize(QuantifiedA(if withPrefix then Comment("X", NoPrefix) else NoPrefix))
         == (if withPrefix then "a(?#X){5}" else "a{5}")
  {
    var p := if withPrefix then Comment("X", NoPrefix) else NoPrefix;
    var root := QuantifiedA(p);
    PostfixText(root);
    assert OperandText(root) == "a" by {
      assert Serialize(Char('a')) == "a";
    }
    assert Operator(root.kind.op) == "{5}" by {
      assert CountText(Count(5, None)) == "5" by {
        Decimal.ValueOfText(5);
      }
    }
    assert PrefixText(p) == (if withPrefix then "(?#X)" else "");
  }

  /** `a{05}`: the digits are kept as written, N is 5, and a copy writes `{05}` again. */
  lemma LeadingZeroQuantifier()
    ensures
      var q := QuantifierNFromText("05", Char('a'));
      q.kind.op.n.value == 5 && Serialize(q) == "a{05}" && Serialize(DeepCopy(q)) == "a{05}"
  {
    LeadingZeroFive("0" + "5");
    var q := QuantifierNFromText("05", Char('a'));
    assert Serialize(Char('a')) == "a";
    QuantifierLiteral("a", "05");
    DeepCopyText(q);
  }

  lemma LeadingZeroFive(z: string)
    requires z == "0" + "5"
    ensures z == "05" && Decimal.IsDecimal(z) && Decimal.Value(z) == 5
  {
    assert Decimal.Value("5") == 5;
    Decimal.LeadingZeroIgnored("5");
  }

  lemma QuantifierLiteral(a: string, n: string)
    requires a == "a" && n == "05"
    ensures a + "{" + n + "}" == "a{05}"
  {
  }

  /** A counted quantifier's span starts after its operand (and prefix) and covers `{5}`. */
  lemma QuantifierSpan(withPrefix: bool)
    ensures GetSpan(QuantifiedA(if withPrefix then Comment("X", NoPrefix) else NoPrefix), [])
         == Span(if withPrefix then 6 else 1, 3)
  {
    var p := if withPrefix then Comment("X", NoPrefix) else NoPrefix;
    var root := QuantifiedA(p);
    assert Serialize(Char('a')) == "a";
    assert |CountText(Count(5, None))| == 1 by {
      Decimal.ValueOfText(5);
    }
    assert |OperandText(root)| == 1;
    assert |PrefixText(p)| == (if withPrefix then 5 else 0);
    PostfixSpan(root, 0);
  }

  /** A character's span is its one character, right where its text starts. */
  lemma CharacterSpan(c: char, pos: int)
    ensures SpanStart(Char(c), pos) == pos && SpanLength(Char(c)) == 1
  {
    assert Serialize(Char(c)) == [c];
  }

  /** The operand of a counted quantifier keeps the span (0, 1), whatever the quantifier's prefix. */
  lemma QuantifiedOperandSpan(p: Prefix)
    ensures GetSpan(QuantifiedA(p), [0]) == Span(0, 1)
  {
    OperandSpan(QuantifiedA(p));
    CharacterSpan('a', 0);
  }

  /** In `[abc-[a]]` the character set's span starts at 1, or at 2 when the class is negated. */
  lemma CharacterSetSpan(negated: bool)
    ensures GetSpan(ClassWithSubtraction(negated), [0]).start == (if negated then 2 else 1)
  {
    var root := ClassWithSubtraction(negated);
    ClassChildPositions(root);
    ChildAt(root, 0);
  }

  /** A character set of the characters of `s` writes `s`. */
  lemma SetOfText(s: string)
    ensures Serialize(SetOf(s)) == s
  {
    WordText(s);
    assert Serialize(SetOf(s)) == "" + Concat(Texts(Word(s).children));
  }

  lemma ClassAText()
    ensures Serialize(ClassA()) == "[a]"
  {
    SetOfText("a");
  }

  /** `[abc-[a]]` is written back as such. */
  lemma SubtractionText()
    ensures Serialize(ClassWithSubtraction(false)) == "[abc-[a]]"
  {
    SetOfText("abc");
    ClassAText();
    SubtractionPieces("abc", "[a]");
  }

  lemma SubtractionPieces(a: string, b: string)
    requires a == "abc" && b == "[a]"
    ensures "[" + "" + a + "-" + b + "]" == "[abc-[a]]"
  {
  }

  /** The subtraction's span starts at 5, after `[`, the set and the `-`. */
  lemma SubtractionSpan()
    ensures GetSpan(ClassWithSubtraction(false), [1]).start == 5
  {
    var root := ClassWithSubtraction(false);
    SetOfText("abc");
    ClassChildPositions(root);
    ChildAt(root, 1);
  }

  /** A concatenation of one node writes that node's text. */
  lemma OneNodeText(c: Node)
    ensures Serialize(Node(Concatenation, NoPrefix, [c])) == Serialize(c)
  {
    OneText([c]);
  }

  /** `(?(c)t|e)`: the condition's span starts at 2, the alternates' right after the condition's text. */
  lemma ConditionalSpans()
    ensures
      var condition := Node(Group(Capture), NoPrefix, [Char('c')]);
      var root := ConditionalGroupWithAlternates(condition, Node(Alternation, NoPrefix, [Char('t'), Char('e')]));
      GetSpan(root, [0]).start == 2 && GetSpan(root, [1]).start == |Serialize(condition)| + 2
  {
    var condition := Node(Group(Capture), NoPrefix, [Char('c')]);
    var root := ConditionalGroupWithAlternates(condition, Node(Alternation, NoPrefix, [Char('t'), Char('e')]));
    FirstChildOfGroup(root);
    ChildAt(root, 0);
    NextSiblingSpan(root, 0);
  }

  /** `(?<name>abc)`: the children's spans start at 8 and follow one another. */
  lemma NamedGroupChildSpans()
    ensures
      var root := Node(Group(Named("name", false)), NoPrefix, [Char('a'), Char('b'), Char('c')]);
      GetSpan(root, [0]).start == 8
      && GetSpan(root, [1]).start == GetSpan(root, [0]).start + GetSpan(root, [0]).length
      && GetSpan(root, [2]).start == GetSpan(root, [1]).start + GetSpan(root, [1]).length
  {
    var root := Node(Group(Named("name", false)), NoPrefix, [Char('a'), Char('b'), Char('c')]);
    FirstChildOfGroup(root);
    ChildAt(root, 0);
    NextSiblingSpan(root, 0);
    NextSiblingSpan(root, 1);
  }

  /** `a+bc*`, wrapped in a group as the test wraps it in a test node. */
  function PlusBStar(): Node {
    Node(Group(NonCapture), NoPrefix, [
      Node(Concatenation, NoPrefix, [Node(Postfix(Plus), NoPrefix, [Char('a')]), Char('b'), Node(Postfix(Star), NoPrefix, [Char('c')])])])
  }

  /** The six descendants of a node above `a+bc*`, each operand before its quantifier and the concatenation last. */
  lemma PlusBStarDescendants()
    ensures
      var r := Descendants(PlusBStar());
      var cat := PlusBStar().children[0];
      r == [Char('a'), cat.children[0], Char('b'), Char('c'), cat.children[2], cat]
  {
    var cat := PlusBStar().children[0];
    assert Descendants(Char('a')) == [];
    assert Descendants(Char('b')) == [];
    assert Descendants(Char('c')) == [];
    assert DescendantsFrom(cat.children[0], 1) == [];
    assert Descendants(cat.children[0]) == [Char('a')];
    assert DescendantsFrom(cat.children[2], 1) == [];
    assert Descendants(cat.children[2]) == [Char('c')];
    assert DescendantsFrom(cat, 3) == [];
    assert DescendantsFrom(cat, 2) == [Char('c'), cat.children[2]];
    assert DescendantsFrom(cat, 1) == [Char('b'), Char('c'), cat.children[2]];
    assert Descendants(cat) == [Char('a'), cat.children[0], Char('b'), Char('c'), cat.children[2]];
    assert DescendantsFrom(PlusBStar(), 1) == [];
  }

  /** Removing a commented first child of a concatenation: the next child gets the comment after its own ones. */
  lemma RemoveOntoNextSibling(gone: string, next: Prefix)
    ensures
      var target := Node(Concatenation, NoPrefix, [Char('a').(prefix := Comment(gone, NoPrefix)), Char('b').(prefix := next)]);
      EditAt(target, [], Remove(0), true).children == [Char('b').(prefix := Relocate(Comment(gone, NoPrefix), next))]
  {
    var target := Node(Concatenation, NoPrefix, [Char('a').(prefix := Comment(gone, NoPrefix)), Char('b').(prefix := next)]);
    RemovedChildBeforeSibling(target.children, 0);
    CopyKindKeeps(Leaf(Character('b')));
  }

  /** With two comments on the next child, the removed child's comment becomes the earliest of three. */
  lemma RemoveOntoTwoComments(gone: string, first: string, second: string)
    ensures
      var next := Comment(second, Comment(first, NoPrefix));
      Relocate(Comment(gone, NoPrefix), next) == Comment(second, Comment(first, Comment(gone, NoPrefix)))
  {
    assert Relocate(Comment(gone, NoPrefix), Comment(first, NoPrefix)) == Comment(first, Comment(gone, NoPrefix));
  }

  /** Removing a commented only child leaves an empty node with the comment; an uncommented one leaves nothing. */
  lemma RemoveOnlyChild(p: Prefix)
    ensures
      var target := Node(Concatenation, NoPrefix, [Char('a').(prefix := p)]);
      EditAt(target, [], Remove(0), true).children == (if p.Comment? then [Node(Leaf(Empty), p, [])] else [])
  {
  }

  /** Replacing a commented child: the new node carries the old comment before its own. */
  lemma ReplaceCarriesComment(gone: string, own: Prefix)
    ensures
      var target := Node(Concatenation, NoPrefix, [Char('a').(prefix := Comment(gone, NoPrefix))]);
      EditAt(target, [], Replace(0, Char('b').(prefix := own)), true).children
        == [Char('b').(prefix := Relocate(Comment(gone, NoPrefix), own))]
  {
  }

  /**
   * Removing the uncommented operand of a lazy node after `a` leaves the
   * childless lazy node of `Spans.ChildlessLazyMisplaced`: the text `a?`,
   * whose `?` is at (1, 1) while the lazy node's span as written is (0, 0).
   */
  lemma RemoveLeavesChildlessLazy(c: Node)
    requires c.prefix == NoPrefix
    ensures
      var root := Node(Concatenation, NoPrefix, [Char('a'), Node(Postfix(Lazy), NoPrefix, [c])]);
      var edited := EditAt(root, [1], Remove(0), true);
      edited == Node(Concatenation, NoPrefix, [Char('a'), Node(Postfix(Lazy), NoPrefix, [])])
      && Serialize(edited) == "a?" && WrittenSpan(edited, [1]) == Span(0, 0) && GetSpan(edited, [1]) == Span(1, 1)
  {
    var root := Node(Concatenation, NoPrefix, [Char('a'), Node(Postfix(Lazy), NoPrefix, [c])]);
    assert EditChildren(NodeAt(root, [1]).children, Remove(0)) == [];
    assert CopyAll(root.children)[0] == Char('a');
    ChildlessLazyMisplaced();
  }

  // ---------------------------------------------------------------------
  // Patterns written back as they were parsed

  /** The concatenation of the characters of `s`. */
  function Word(s: string): Node {
    Node(Concatenation, NoPrefix, seq(|s|, i requires 0 <= i < |s| => Char(s[i])))
  }

  lemma {:induction false} WordText(s: string)
    ensures Serialize(Word(s)) == s
    decreases |s|
  {
    var ts := Texts(Word(s).children);
    forall i | 0 <= i < |s| ensures ts[i] == [s[i]] {
      assert Serialize(Char(s[i])) == [s[i]];
    }
    CharactersConcat(ts, s);
  }

  /** Strings of one character each, concatenated, give back the word they spell. */
  lemma {:induction false} CharactersConcat(ts: seq<string>, s: string)
    requires |ts| == |s| && forall i :: 0 <= i < |s| ==> ts[i] == [s[i]]
    ensures Concat(ts) == s
    decreases |s|
  {
    if |s| > 0 {
      CharactersConcat(ts[1..], s[1..]);
      assert s == [s[0]] + s[1..];
    }
  }

  /** `(?<name>abc)`. */
  lemma NamedGroupRoundTrip()
    ensures Serialize(Node(Group(Named("name", false)), NoPrefix, [Word("abc")])) == "(?<name>abc)"
  {
    var n := Node(Group(Named("name", false)), NoPrefix, [Word("abc")]);
    WordText("abc");
    OneChildGroupText(n);
  }

  /** `a|b|c`: three alternates, each a one-character concatenation. */
  lemma AlternationRoundTrip()
    ensures Serialize(Node(Alternation, NoPrefix, [Word("a"), Word("b"), Word("c")])) == "a|b|c"
  {
    var n := Node(Alternation, NoPrefix, [Word("a"), Word("b"), Word("c")]);
    WordText("a");
    WordText("b");
    WordText("c");
    var ts := Texts(n.children);
    assert ts == ["a", "b", "c"];
    assert ts[1..] == ["b", "c"];
    assert ts[1..][1..] == ["c"];
    assert Join(ts) == "a|" + Join(["b", "c"]);
  }

  /** `(?#This is a comment.)a`: the comment is the character's prefix. */
  lemma CommentedCharacterRoundTrip()
    ensures Serialize(Node(Concatenation, NoPrefix, [Char('a').(prefix := Comment("This is a comment.", NoPrefix))]))
         == "(?#This is a comment.)a"
  {
    var c := Char('a').(prefix := Comment("This is a comment.", NoPrefix));
    CommentedCharacterText("This is a comment.");
    OneNodeText(c);
  }

  lemma CommentedCharacterText(t: string)
    requires t == "This is a comment."
    ensures Serialize(Char('a').(prefix := Comment(t, NoPrefix))) == "(?#This is a comment.)a"
  {
    var c := Char('a').(prefix := Comment(t, NoPrefix));
    assert Serialize(c) == PrefixText(c.prefix) + "a";
    assert PrefixText(c.prefix) == "" + CommentGroupText(t);
    CommentThenA(t);
  }

  lemma CommentThenA(t: string)
    requires t == "This is a comment."
    ensures "" + CommentGroupText(t) + "a" == "(?#This is a comment.)a"
  {
  }
}
