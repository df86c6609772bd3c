/**
 * `CharacterClassNode.ToString`, which writes the class's text step by step
 * into a `StringBuilder`.
 */
module Builder {
  import opened Comments
  import opened Strings
  import opened Nodes

  /** The text a `StringBuilder` holds, extended in place by `Append`. */
  class StringBuilder {
    var text: string

    constructor (initial: string)
      ensures text == initial
    {
      text := initial;
    }

    method Append(s: string)
      modifies this
      ensures text == old(text) + s
    {
      text := text + s;
    }
  }

  /** What `Append(CharacterSet)` adds: the set's text, or nothing for null. */
  function CharacterSetText(n: Node): string
    requires n.kind.CharacterClass?
  {
    match CharacterSet(n)
    case Some(c) => Serialize(c)
    case None => ""
  }

  /** What the subtraction step adds: `-` and the subtracted class, or nothing. */
  function SubtractionText(n: Node): string
    requires n.kind.CharacterClass?
  {
    match Subtraction(n)
    case Some(c) => "-" + Serialize(c)
    case None => ""
  }

  /**
   * The class's text is the pieces `ToString` appends, in order. This only
   * unfolds `Serialize` for a class; it is the proof step that
   * `CharacterClassToString` rests on.
   */
  lemma ClassPieces(n: Node)
    requires n.kind.CharacterClass?
    ensures Serialize(n)
         == PrefixText(n.prefix) + "[" + (if n.kind.negated then "^" else "")
            + CharacterSetText(n) + SubtractionText(n) + "]"
  {
    var texts := Texts(n.children);
    if HasCharacterSet(n) {
      assert texts[0] == Serialize(n.children[0]);
    }
    if HasSubtraction(n) {
      assert texts[1] == Serialize(n.children[1]);
    }
    var neg := if n.kind.negated then "^" else "";
    assert Unprefixed(n) == "[" + neg + CharacterSetText(n) + SubtractionText(n) + "]";
    assert Serialize(n) == PrefixText(n.prefix) + Unprefixed(n);
    Prepend5(PrefixText(n.prefix), "[", neg, CharacterSetText(n), SubtractionText(n), "]");
  }

  /** The class's text: prefix, `[`, `^` when negated, the character set, `-` and the subtraction if any, `]`. */
  method CharacterClassToString(n: Node) returns (s: string)
    requires n.kind.CharacterClass?
    ensures s == Serialize(n)
  {
    var builder := new StringBuilder(PrefixText(n.prefix) + "[");
    if n.kind.negated {
      builder.Append("^");
    }
    match CharacterSet(n) {
      case Some(characterSet) => builder.Append(Serialize(characterSet));
      case None =>
    }
    match Subtraction(n) {
      case Some(subtraction) => builder.Append("-" + Serialize(subtraction));
      case None =>
    }
    builder.Append("]");
    s := builder.text;
    ClassPieces(n);
  }
}
