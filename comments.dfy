/**
 * Comment chains. A node's prefix is a comment group `(?#text)`, and that
 * comment may carry a prefix of its own, so the comments written before a
 * node form a chain: the node's direct prefix is the comment written last,
 * and the comment written first sits at the far end of the chain.
 */
module Comments {

  /** `outer` is the comment's own prefix, i.e. the comments written before it. */
  datatype Prefix = NoPrefix | Comment(text: string, outer: Prefix)

  /** The text of a single comment group. */
  function CommentGroupText(text: string): (s: string)
    ensures |s| == |text| + 4
  {
    "(?#" + text + ")"
  }

  /** The text of a chain: the earliest comment (the deepest link) first. */
  function PrefixText(p: Prefix): string {
    match p
    case NoPrefix => ""
    case Comment(t, o) => PrefixText(o) + CommentGroupText(t)
  }

  /** The comments of a chain in the order they are written. */
  function CommentTexts(p: Prefix): (r: seq<string>)
    ensures |r| == Depth(p)
  {
    match p
    case NoPrefix => []
    case Comment(t, o) => CommentTexts(o) + [t]
  }

  function Depth(p: Prefix): nat {
    match p
    case NoPrefix => 0
    case Comment(_, o) => Depth(o) + 1
  }

  /**
   * Hangs chain `moved` at the far end of chain `onto`, the place where a
   * removed or replaced node's prefix goes on its successor: `moved` ends up
   * before every comment of `onto`.
   */
  function Relocate(moved: Prefix, onto: Prefix): Prefix {
    match onto
    case NoPrefix => moved
    case Comment(t, o) => Comment(t, Relocate(moved, o))
  }

  /** The successor's text starts with the moved comments, then its own. */
  lemma {:induction false} RelocateText(moved: Prefix, onto: Prefix)
    ensures PrefixText(Relocate(moved, onto)) == PrefixText(moved) + PrefixText(onto)
  {
    match onto
    case NoPrefix =>
    case Comment(t, o) =>
      RelocateText(moved, o);
  }

  /** Relocation keeps every comment, in written order. */
  lemma {:induction false} RelocateTexts(moved: Prefix, onto: Prefix)
    ensures CommentTexts(Relocate(moved, onto)) == CommentTexts(moved) + CommentTexts(onto)
    ensures Depth(Relocate(moved, onto)) == Depth(moved) + Depth(onto)
  {
    match onto
    case NoPrefix =>
    case Comment(t, o) =>
      RelocateTexts(moved, o);
  }

  /** The node's own direct prefix stays its direct prefix after a relocation onto it. */
  lemma RelocateKeepsDirectComment(moved: Prefix, onto: Prefix)
    requires onto.Comment?
    ensures Relocate(moved, onto).Comment?
    ensures Relocate(moved, onto).text == onto.text
  {
  }

  /** Relocating nothing leaves a chain as it is. */
  lemma {:induction false} RelocateNothing(onto: Prefix)
    ensures Relocate(NoPrefix, onto) == onto
  {
    match onto
    case NoPrefix =>
    case Comment(t, o) =>
      RelocateNothing(o);
  }

  /** Moving prefixes twice in a row is the same as moving their combination once. */
  lemma {:induction false} RelocateAssociative(a: Prefix, b: Prefix, c: Prefix)
    ensures Relocate(Relocate(a, b), c) == Relocate(a, Relocate(b, c))
  {
    match c
    case NoPrefix =>
    case Comment(t, o) =>
      RelocateAssociative(a, b, o);
  }

  /** Each comment contributes its text and the four delimiter characters. */
  lemma {:induction false} PrefixTextLength(p: Prefix)
    ensures |PrefixText(p)| >= 4 * Depth(p)
    ensures p.Comment? <==> |PrefixText(p)| > 0
  {
    match p
    case NoPrefix =>
    case Comment(_, o) =>
      PrefixTextLength(o);
  }
}
