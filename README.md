# Regex syntax trees: text, spans and copy-on-write edits

A model of the syntax-tree half of the .NET regex parser used by Stryker.NET
(`Stryker.Regex.Parser`, and its older `RegexParser` namespace). The parser
turns a pattern into a tree of `RegexNode`s. Each node writes itself back as
pattern text (`ToString`), reports where its own text lies in the whole
pattern (`GetSpan`), and can be edited (`AddNode`, `ReplaceNode`, `RemoveNode`)
into a new tree.

The model consists of:

- `comments.dfy` — the comments written before a node, `(?#...)`. In the
  source these form a chain of prefixes. The model also covers how a chain is
  moved onto another node when the node it belongs to is removed or replaced.
- `decimal.dfy` — the digit text a counted quantifier keeps (`{05}`). It
  covers `int.Parse` of that text and `int.ToString` of a number.
- `nodes.dfy` — the tree itself.
  - A `Node` has a kind (its class and the fields that class adds), a prefix
    and a list of children.
  - `Serialize` is the classes' `ToString`.
  - This file also holds the constructors of the character-class, conditional
    and `{n}` nodes, their accessors, and `CopyInstance` with the deep copy
    every edit makes.
- `builder.dfy` — `CharacterClassNode.ToString`, which appends to a
  `StringBuilder` step by step. It is modelled by a class with an `Append`
  method.
- `lengths.dfy` — the length and layout of each kind's text, and the span of
  a leaf without a parent.
- `spans.dfy` — `GetSpan`.
  - A node is named by its path of child indices from the root.
  - A child starts at its parent's start, plus the parent's `ChildSpanOffset`,
    plus the texts of the children before it.
  - The main lemmas prove that a span holds the node's own text in the root's
    text, that siblings are contiguous, and that a comment sits right before
    the span.
- `editor.dfy` — the three edits. Each returns a copy of the root, or, with
  `returnRoot` false, a copy of the edited target. The lemmas prove that an
  edit rewrites the root's text only where the target's text was, and that
  everything off the target's path is a copy of the original.
- `traversal.dfy` — `GetDescendantNodes`, a post-order walk. Its order is
  checked against a reference list of paths.
- `examples.dfy` — trees and patterns from the unit tests, with the texts,
  spans, descendants and edit results those tests expect.

The common base class `RegexNode` (`GetSpan`, `GetSpanStart`,
`GetSpanLength`, `AddNode`, `ReplaceNode`, `RemoveNode` and
`GetDescendantNodes`) is modelled from its unit tests (`RegexNodeTest.cs`).
So are the alternation, capture, atomic, lookaround, balancing,
mode-modifier and comment groups, `{n,}` and `{n,m}`, the anchors other than
`\b`, `\B` and `\G`, and the remaining leaves. Their text and offsets are
the ones their test files expect, except for the inferred behaviours listed
under "## Left out".

Decisions where the tests settle a choice, or pin an odd value:

- Edits copy the whole tree, and the tests check that the result shares no
  node with the original. Edits that shared untouched subtrees would fit the
  public interface equally well. The model follows the tests: every node of
  the result is a copy.
- An alternation's child offsets count the `|` separators, and a class
  subtraction's offset counts the `-`, as their tests expect.
- A lookaround's children start at 4 for a lookahead and at 3 for a
  lookbehind, as the tests expect. That is off by one from the texts `(?=` and
  `(?<=`. `Spans.LookaheadChildMisplaced` and `Spans.LookbehindChildMisplaced`
  show the mismatch.
- A concatenation writes no prefix of its own, yet its span length subtracts
  that prefix, so a prefixed empty concatenation has a negative length.
- Comments taken over by a concatenation are not written at all, since a
  concatenation's `ToString` (`ConcatenationNode.cs:22-25`) writes only its
  children. Comments taken over by a quantifier are written between its
  operand and its own comments. `Editor.TakeOverText` states both.

## Model

| member | source | states |
|---|---|---|
| Decimal.Text | src/Stryker.Regex.Parser/Nodes/QuantifierNodes/QuantifierNNode.cs:40 | `N.ToString()` is a canonical digit string, one digit long exactly when N < 10 |
| Decimal.ValueOfText | src/Stryker.Regex.Parser/Nodes/QuantifierNodes/QuantifierNNode.cs:33-36 | `int.Parse(N.ToString())` is N again, so a copy made from the written digits keeps N |
| Decimal.TextOfValue | src/Stryker.Regex.Parser/Nodes/QuantifierNodes/QuantifierNNode.cs:40 | writing the value of a canonical digit string gives that string back |
| Decimal.LeadingZeroIgnored | src/Stryker.Regex.Parser/Nodes/QuantifierNodes/QuantifierNNode.cs:17-25 | a leading zero does not change the number read (`05` and `5` are both 5) |
| Decimal.LeadingDigitPositive | src/Stryker.Regex.Parser/Nodes/QuantifierNodes/QuantifierNNode.cs:24 | digits that do not start with `0` denote a positive number |
| Decimal.CanonicalTextsInjective | src/Stryker.Regex.Parser/Nodes/QuantifierNodes/QuantifierNNode.cs:40 | two canonical digit strings with the same value are the same string |
| Comments.PrefixTextLength | src/Stryker.Regex.Parser.UnitTest/Nodes/GroupNodes/CommentGroupNodeTest.cs:12-37 | a chain writes at least the four delimiter characters `(?#` and `)` per comment, and writes something exactly when it holds a comment |
| Comments.RelocateText | src/Stryker.Regex.Parser.UnitTest/Nodes/RegexNodeTest.cs:416-457 | a chain moved onto another is written first, before the other chain's comments |
| Comments.RelocateTexts | src/Stryker.Regex.Parser.UnitTest/Nodes/RegexNodeTest.cs:436-457 | moving a chain keeps every comment of both chains, in written order, and the depths add up |
| Comments.RelocateKeepsDirectComment | src/Stryker.Regex.Parser.UnitTest/Nodes/RegexNodeTest.cs:416-435 | the receiving node's own last comment stays its direct prefix |
| Comments.RelocateNothing | src/Stryker.Regex.Parser.UnitTest/Nodes/RegexNodeTest.cs:476-488 | moving an empty chain leaves the receiving chain as it is |
| Comments.RelocateAssociative | src/Stryker.Regex.Parser.UnitTest/Nodes/RegexNodeTest.cs:436-457 | moving chains one after the other equals moving their combination once |
| Nodes.CountText | src/Stryker.Regex.Parser/Nodes/QuantifierNodes/QuantifierNNode.cs:38-41 | the digits a bound writes (`OriginalN ?? N.ToString()`) are a digit string whose value is N |
| Nodes.PrefixIndependent | src/Stryker.Regex.Parser/Nodes/ConcatenationNode.cs:22-25 | a concatenation's text ignores its prefix; any other node's text after its prefix does not depend on that prefix |
| Nodes.AlternationText | src/Stryker.Regex.Parser.UnitTest/Nodes/AlternationNodeTest.cs:11-23 | an alternation of any number of alternates writes its prefix, then the alternates separated by one `\|` each: alternate `i` follows the earlier ones and `i` separators, and the text is one separator short of one per alternate |
| Nodes.WellFormedClassText | src/Stryker.Regex.Parser/Nodes/CharacterClass/CharacterClassNode.cs:21-64 | in a class of the documented shape, `CharacterSet` is the first child and `Subtraction` exists exactly when there are two children; the text is prefix, `[`, `^` if negated, the set, `-` and the subtraction if any, `]` |
| Nodes.ConditionalText | src/Stryker.Regex.Parser/Nodes/GroupNodes/ConditionalGroupNode.cs:6-38 | in a conditional of the documented shape (a group as condition, then optionally a concatenation or a two-way alternation), `Condition` is the first child and `Alternates` exists exactly when there are two; the text is prefix, `(?`, condition, alternates if any, `)` |
| Nodes.ConditionalAlternationText | src/Stryker.Regex.Parser.UnitTest/Nodes/GroupNodes/ConditionalGroupNodeTest.cs:12-27 | with an alternation as alternates, the then- and else-branches are separated by one `\|` |
| Nodes.CharacterClassNode | src/Stryker.Regex.Parser/Nodes/CharacterClass/CharacterClassNode.cs:29-33 | the one-child constructor makes a class of the documented shape with the given negation, `CharacterSet` the set, `Subtraction` null, and text `[set]` or `[^set]` |
| Nodes.CharacterClassWithSubtraction | src/Stryker.Regex.Parser/Nodes/CharacterClass/CharacterClassNode.cs:35-39 | the two-child constructor makes a well-formed class whose accessors return the set and the subtraction, with text `[set-sub]` or `[^set-sub]` |
| Nodes.ConditionalGroupNode | src/Stryker.Regex.Parser/Nodes/GroupNodes/ConditionalGroupNode.cs:26-29 | a conditional of a condition alone: `Condition` is that node, `Alternates` null, text `(?condition)` |
| Nodes.ConditionalGroupWithAlternates | src/Stryker.Regex.Parser/Nodes/GroupNodes/ConditionalGroupNode.cs:31-34 | `Condition` and `Alternates` return the two given nodes; text `(?condition alternates)` |
| Nodes.QuantifierNFromText | src/Stryker.Regex.Parser/Nodes/QuantifierNodes/QuantifierNNode.cs:20-25 | the digit text is kept as given and N is its value; the node has the one child; it writes child, `{`, the digits, `}` |
| Nodes.QuantifierNFromNumber | src/Stryker.Regex.Parser/Nodes/QuantifierNodes/QuantifierNNode.cs:27-31 | no digit text is kept, so the node writes N in canonical decimal |
| Nodes.CopyCount | src/Stryker.Regex.Parser/Nodes/QuantifierNodes/QuantifierNNode.cs:33-36 | a copied bound keeps N, always carries digit text, and writes the same digits |
| Nodes.CopyKindKeeps | src/Stryker.Regex.Parser/Nodes/CharacterClass/CharacterClassNode.cs:41-44 | `CopyInstance` keeps every non-quantifier kind with all its fields (negation, name and quotes, category, character); a quantifier keeps its operator text and bound values |
| Nodes.DeepCopyText | src/Stryker.Regex.Parser.UnitTest/Nodes/RegexNodeTest.cs:491-505 | a copied tree, nested prefixes included, writes exactly the text of the original |
| Nodes.DeepCopyIdempotent | src/Stryker.Regex.Parser/Nodes/QuantifierNodes/QuantifierNNode.cs:33-36 | copying a copy yields the same tree: after one copy every bound carries its digit text |
| Builder.CharacterClassToString | src/Stryker.Regex.Parser/Nodes/CharacterClass/CharacterClassNode.cs:46-64 | the `StringBuilder` procedure returns the class's text |
| Builder.StringBuilder.Append | src/Stryker.Regex.Parser/Nodes/CharacterClass/CharacterClassNode.cs:48-62 | appending extends the builder's text by exactly the given string |
| Lengths.ConcatenationLength | src/Stryker.Regex.Parser/Nodes/ConcatenationNode.cs:22-25 | a concatenation is exactly as long as its children together, and empty when it has none |
| Lengths.GroupLength | RegexParser/Nodes/GroupNodes/NonCaptureGroupNode.cs:23-26 | a group's length is its prefix, its opening, its children and one for `)` |
| Lengths.NamedGroupLength | src/Stryker.Regex.Parser/Nodes/GroupNodes/NamedGroupNode.cs:43 | without a prefix, a named group is as long as its name plus five plus its children |
| Lengths.NamedGroupFields | src/Stryker.Regex.Parser/Nodes/GroupNodes/NamedGroupNode.cs:41-44 | after the prefix come `(?'` or `(?<`, the name, then `'` or `>` by `UseQuotes`, and the text ends in `)` |
| Lengths.NamedGroupBody | src/Stryker.Regex.Parser/Nodes/GroupNodes/NamedGroupNode.cs:43 | between the name's closing delimiter and `)` a named group writes its children one after the other |
| Lengths.EmptyNonCaptureGroup | src/Stryker.Regex.Parser.UnitTest/Nodes/GroupNodes/NonCaptureGroupNodeTest.cs:12-23 | a non-capturing group with no children writes `(?:)` |
| Lengths.PostfixLength | src/Stryker.Regex.Parser/Nodes/QuantifierNodes/QuantifierPlusNode.cs:19-22 | a quantifier is as long as its child, its prefix and its operator; `?`, `+`, `*` and the lazy `?` are one character |
| Lengths.AnchorLength | src/Stryker.Regex.Parser/Nodes/AnchorNodes/WordBoundaryNode.cs:8-11 | an escaped anchor is its prefix plus two characters (`^` and `$` one) |
| Lengths.BoundaryTexts | src/Stryker.Regex.Parser/Nodes/AnchorNodes/NonWordBoundaryNode.cs:8-11 | without a prefix, the boundary anchors write `\b`, `\B` and `\G` |
| Lengths.UnicodeCategoryFields | src/Stryker.Regex.Parser/Nodes/UnicodeCategoryNode.cs:22-25 | after the prefix a category writes `\`, `P` exactly when negated (else `p`), and the category verbatim between braces |
| Lengths.UnicodeCategoryTexts | src/Stryker.Regex.Parser.UnitTest/Nodes/UnicodeCategoryNodeTest.cs:13-36 | `\p{IsBasicLatin}` and `\P{IsBasicLatin}` are written back as such |
| Lengths.LeafSpan | src/Stryker.Regex.Parser.UnitTest/Nodes/CharacterNodeTest.cs:54-80 | a parentless leaf's span starts after its prefix and covers the leaf's own text |
| Lengths.CharacterSpans | src/Stryker.Regex.Parser.UnitTest/Nodes/CharacterNodeTest.cs:54-80 | a character's span is (0, 1), or (5, 1) after `(?#X)` |
| Lengths.PrefixedContiguousMatchText | src/Stryker.Regex.Parser.UnitTest/Nodes/AnchorNodes/ContiguousMatchNodeTest.cs:25-40 | `\G` after a comment writes the comment, then `\G` |
| Lengths.PrefixedContiguousMatchSpan | src/Stryker.Regex.Parser.UnitTest/Nodes/AnchorNodes/ContiguousMatchNodeTest.cs:33-36 | after a 22-character comment the span of `\G` is (22, 2) |
| Spans.OpeningLength | RegexParser/Nodes/GroupNodes/NonCaptureGroupNode.cs:7 | every group's offset is the length of the text it writes before its first child, lookarounds excepted |
| Spans.ChildInParent | src/Stryker.Regex.Parser.UnitTest/Nodes/ConcatenationNodeTest.cs:93-108 | where the child offsets agree with the text, the parent writes each child in full between fixed texts, and the text before the child is as long as the child's computed position |
| Spans.ChildWritten | src/Stryker.Regex.Parser/Nodes/ConcatenationNode.cs:22-25 | every node that writes its children (all but leaves, malformed classes and quantifiers with extra children) writes each child's whole text between the texts before and after it |
| Spans.NodeTextInTree | src/Stryker.Regex.Parser.UnitTest/Nodes/CharacterClass/CharacterClassNodeTest.cs:133-145 | once parents are built, a node's text is found in the root's text at the node's computed position |
| Spans.NodeTextWritten | src/Stryker.Regex.Parser.UnitTest/Nodes/CharacterClass/CharacterClassNodeTest.cs:133-145 | below ancestors that write their children, a node's text is found in the root's text at its text offset, the summed texts written before it |
| Spans.OffsetIsPosition | src/Stryker.Regex.Parser.UnitTest/Nodes/ConcatenationNodeTest.cs:93-108 | where the child offsets agree with the text, a node's text offset is the position its span counts from |
| Spans.AfterPrefixSpan | src/Stryker.Regex.Parser.UnitTest/Nodes/RegexNodeTest.cs:583-613 | a node that writes its prefix first has its span right after the prefix, running to the end of its text |
| Spans.PrefixBeforeSpan | src/Stryker.Regex.Parser.UnitTest/Nodes/GroupNodes/CommentGroupNodeTest.cs:87-110 | in the root's text, a node's prefix ends exactly where its span starts |
| Spans.SpanInTree | src/Stryker.Regex.Parser.UnitTest/Nodes/RegexNodeTest.cs:599-613 | in the root's text, the span holds exactly the node's text after its prefix |
| Spans.SpanEnd | src/Stryker.Regex.Parser.UnitTest/Nodes/RegexNodeTest.cs:599-613 | every node's span ends where its text ends |
| Spans.SiblingsContiguous | src/Stryker.Regex.Parser.UnitTest/Nodes/ConcatenationNodeTest.cs:93-108 | each child's text starts where the previous child's text ends, plus the counted separator |
| Spans.NextSiblingSpan | src/Stryker.Regex.Parser.UnitTest/Nodes/AlternationNodeTest.cs:57-75 | for a next child without a prefix that is not a quantifier, its span starts at the end of this child's span plus the separator (`\|` for alternates) |
| Spans.FirstChildOfGroup | src/Stryker.Regex.Parser/Nodes/GroupNodes/ConditionalGroupNode.cs:18-20 | the first child of an unprefixed group starts at the group's offset |
| Spans.ClassChildPositions | RegexParser/Nodes/CharacterClass/CharacterClassNode.cs:12 | a class's set starts after `[`, or after `[^` when negated; a subtraction starts after the set and `-` |
| Spans.PostfixPieces | RegexParser/Nodes/LazyNode.cs:28-31 | a lazy node or quantifier writes its operand, its prefix and its operator, in that order |
| Spans.PostfixSpan | src/Stryker.Regex.Parser.UnitTest/Nodes/QuantifierNodes/QuantifierNNodeTest.cs:74-103 | a quantifier's span starts after its operand and prefix and is as long as its operator |
| Spans.PostfixSpanInTree | RegexParser/Nodes/LazyNode.cs:18-26 | in the root's text, a lazy node's or quantifier's span holds exactly its operator |
| Spans.PostfixPrefixBeforeSpan | src/Stryker.Regex.Parser.UnitTest/Nodes/QuantifierNodes/QuantifierNNodeTest.cs:89-103 | a quantifier's prefix sits after its operand and right before the span |
| Spans.OperandBeforePrefix | src/Stryker.Regex.Parser.UnitTest/Nodes/QuantifierNodes/QuantifierNNodeTest.cs:120-133 | the operand's text starts where the quantifier's text starts, before the quantifier's prefix |
| Spans.OperandSpan | RegexParser/Nodes/LazyNode.cs:7 | the negative child offset makes the operand keep its own span, whatever the quantifier's prefix |
| Spans.CommentSpanCovers | src/Stryker.Regex.Parser.UnitTest/Nodes/GroupNodes/CommentGroupNodeTest.cs:68-85 | each comment of a chain spans its own `(?#...)` text |
| Spans.CommentSpansContiguous | src/Stryker.Regex.Parser.UnitTest/Nodes/GroupNodes/CommentGroupNodeTest.cs:87-110 | each comment's span starts where the previous comment's ends |
| Spans.CommentSpansEnd | src/Stryker.Regex.Parser.UnitTest/Nodes/GroupNodes/CommentGroupNodeTest.cs:68-85 | the first comment starts where the chain starts and the last ends where it ends |
| Spans.CommentInTree | src/Stryker.Regex.Parser.UnitTest/Nodes/GroupNodes/CommentGroupNodeTest.cs:87-110 | in the root's text, each comment before a node is found at its span |
| Spans.LastCommentEndsAtSpan | src/Stryker.Regex.Parser.UnitTest/Nodes/GroupNodes/CommentGroupNodeTest.cs:87-110 | the last comment before a node ends where the node's span starts |
| Spans.PrefixedEmptyConcatenation | src/Stryker.Regex.Parser.UnitTest/Nodes/ConcatenationNodeTest.cs:65-77 | an empty concatenation with a comment has a negative span length |
| Spans.OneChildGroupText | RegexParser/Nodes/GroupNodes/NonCaptureGroupNode.cs:23-26 | an unprefixed group with one child writes its opening, the child and `)` |
| Spans.LookaroundOfCharacter | src/Stryker.Regex.Parser.UnitTest/Nodes/GroupNodes/LookaroundGroupNodeTest.cs:68-82 | `(?=a)` and `(?<=a)` are written as such, and their child sits at the lookaround offset |
| Spans.LookaheadChildMisplaced | src/Stryker.Regex.Parser.UnitTest/Nodes/GroupNodes/LookaroundGroupNodeTest.cs:147-162 | with the offset 4 its test expects, the child of `(?=a)` starts where the text holds `)` |
| Spans.LookbehindChildMisplaced | src/Stryker.Regex.Parser.UnitTest/Nodes/GroupNodes/LookaroundGroupNodeTest.cs:129-145 | with the offset 3 its test expects, the child of `(?<=a)` starts inside the opening |
| Spans.ChildlessLazyMisplaced | RegexParser/Nodes/LazyNode.cs:20 | in `a?` with a childless lazy node, the written span is (0, 0) while its `?` is at (1, 1) |
| Editor.AddedChildren | src/Stryker.Regex.Parser.UnitTest/Nodes/RegexNodeTest.cs:38-50 | `AddNode` puts the new node after all children, whose texts are unchanged |
| Editor.ReplacedChildren | src/Stryker.Regex.Parser.UnitTest/Nodes/RegexNodeTest.cs:128-143 | `ReplaceNode` keeps the child count and puts the new node, carrying the old node's comments, at the old index |
| Editor.RemovedPlainChild | src/Stryker.Regex.Parser.UnitTest/Nodes/RegexNodeTest.cs:207-221 | removing an uncommented child drops just that child and keeps the other texts in order |
| Editor.RemovedChildBeforeSibling | src/Stryker.Regex.Parser.UnitTest/Nodes/RegexNodeTest.cs:383-398 | removing a commented child moves its comments onto the next sibling, which takes its place |
| Editor.RemovedLastChild | src/Stryker.Regex.Parser.UnitTest/Nodes/RegexNodeTest.cs:460-475 | removing a commented last child leaves an empty node carrying its comments |
| Editor.NoSuchChild | src/Stryker.Regex.Parser.UnitTest/Nodes/CharacterClassShorthandTest.cs:25-37 | replacing or removing a node that is not a child leaves copies of the children, writing the same texts, so the edit returns a copy of the target |
| Editor.TakeOverText | src/Stryker.Regex.Parser.UnitTest/Nodes/RegexNodeTest.cs:523-581 | a node taking over comments keeps them all, the moved ones first; a node that writes its prefix first writes them before its own text, a quantifier between its operand and its own comments, and a concatenation not at all |
| Editor.TakeOverCopy | src/Stryker.Regex.Parser.UnitTest/Nodes/RegexNodeTest.cs:383-398 | the copy of a sibling takes over comments exactly as the sibling would, writing the same text |
| Editor.AddWrites | src/Stryker.Regex.Parser.UnitTest/Nodes/RegexNodeTest.cs:38-50 | after `AddNode` the children write their old text followed by the new node's |
| Editor.ReplaceWrites | src/Stryker.Regex.Parser.UnitTest/Nodes/RegexNodeTest.cs:523-539 | after `ReplaceNode` the new node carrying the old node's comments is written in the old node's place; a new node that writes its prefix first is written right after those comments |
| Editor.RemoveWrites | src/Stryker.Regex.Parser.UnitTest/Nodes/RegexNodeTest.cs:383-475 | after `RemoveNode` the removed node's own text is gone; its comments stay in place when it had none, was the last child or the next sibling writes its prefix first, and are otherwise written where the next sibling's takeover puts them |
| Editor.RemoveBeforeSiblingWrites | src/Stryker.Regex.Parser.UnitTest/Nodes/RegexNodeTest.cs:383-398 | removing a commented child before a sibling writes the sibling's takeover in place of both; the comments stay in place when the sibling writes its prefix first |
| Editor.RebuildPlaces | src/Stryker.Regex.Parser.UnitTest/Nodes/RegexNodeTest.cs:110-125 | the edited target sits at the target's path in the new root |
| Editor.RebuildKeepsAncestors | src/Stryker.Regex.Parser.UnitTest/Nodes/RegexNodeTest.cs:352-366 | every node above the target is copied with its kind, its prefix and its number of children |
| Editor.CopyAt | src/Stryker.Regex.Parser.UnitTest/Nodes/RegexNodeTest.cs:53-69 | a copied tree holds a copy of each node at the same path |
| Editor.RebuildElsewhere | src/Stryker.Regex.Parser.UnitTest/Nodes/RegexNodeTest.cs:53-69 | away from the target's path, the new tree holds copies of the original nodes |
| Editor.RebuildText | src/Stryker.Regex.Parser.UnitTest/Nodes/RegexNodeTest.cs:90-108 | the new root's text is the old one with the target's text, at its text offset, replaced by the edited target's, for every target whose ancestors write their children |
| Editor.EditReturnsTarget | src/Stryker.Regex.Parser.UnitTest/Nodes/RegexNodeTest.cs:110-125 | with `returnRoot` false the edit returns the node found at the target's path in the new root |
| Editor.EditText | src/Stryker.Regex.Parser.UnitTest/Nodes/RegexNodeTest.cs:90-125 | an edit changes the root's text only where the target's text was, at its text offset, for every target whose ancestors write their children |
| Editor.EditElsewhere | src/Stryker.Regex.Parser.UnitTest/Nodes/RegexNodeTest.cs:322-335 | nodes off the target's path are copies of the originals and write the same text |
| Editor.RemoveFromConcatenation | src/Stryker.Regex.Parser.UnitTest/Nodes/RegexNodeTest.cs:383-398 | removing from a concatenation, at its text offset, deletes the removed node's own text and keeps its comments in place, or writes the next sibling's takeover |
| Editor.AddToConcatenation | src/Stryker.Regex.Parser.UnitTest/Nodes/RegexNodeTest.cs:90-108 | adding to a concatenation inserts the new node's text right after the target's text, at its text offset |
| Editor.ReplaceInConcatenation | src/Stryker.Regex.Parser.UnitTest/Nodes/RegexNodeTest.cs:523-539 | replacing in a concatenation, at its text offset, writes the new node carrying the old comments in the old node's place, after those comments when it writes its prefix first |
| Traversal.DescendantsAtPaths | src/Stryker.Regex.Parser.UnitTest/Nodes/RegexNodeTest.cs:282-307 | each descendant is the node at a path strictly below the node |
| Traversal.DescendantCount | src/Stryker.Regex.Parser.UnitTest/Nodes/RegexNodeTest.cs:282-320 | there are exactly as many descendants as nodes below, so none for a leaf |
| Traversal.DescendantPathsComplete | src/Stryker.Regex.Parser.UnitTest/Nodes/RegexNodeTest.cs:282-307 | every node strictly below is among the descendants |
| Traversal.ChildrenBeforeParent | src/Stryker.Regex.Parser.UnitTest/Nodes/RegexNodeTest.cs:282-307 | post-order: a node's descendants all come before it |
| Traversal.PathsFromParts | src/Stryker.Regex.Parser.UnitTest/Nodes/RegexNodeTest.cs:282-307 | children are walked left to right: child i's subtree, then child i, then the later children |
| Examples.QuantifierText | src/Stryker.Regex.Parser.UnitTest/Nodes/QuantifierNodes/QuantifierNNodeTest.cs:59-72 | `a{5}` with prefix `(?#X)` writes `a(?#X){5}` |
| Examples.LeadingZeroQuantifier | src/Stryker.Regex.Parser.UnitTest/ParserTest.cs:1326-1341 | `a{05}` has N = 5, keeps `05` and is written as `a{05}`, also by its copy |
| Examples.QuantifierSpan | src/Stryker.Regex.Parser.UnitTest/Nodes/QuantifierNodes/QuantifierNNodeTest.cs:74-103 | the span of `{5}` in `a{5}` is (1, 3), or (6, 3) after a 5-character prefix |
| Examples.QuantifiedOperandSpan | src/Stryker.Regex.Parser.UnitTest/Nodes/QuantifierNodes/QuantifierNNodeTest.cs:105-133 | the operand `a` of `a{5}` has span (0, 1), with or without a prefix on the quantifier |
| Examples.CharacterSetSpan | src/Stryker.Regex.Parser.UnitTest/Nodes/CharacterClass/CharacterClassNodeTest.cs:133-159 | the set of `[abc-[a]]` starts at 1, or at 2 in `[^abc-[a]]` |
| Examples.ClassAText | src/Stryker.Regex.Parser.UnitTest/Nodes/CharacterClass/CharacterClassNodeTest.cs:13-25 | the class of the set `a` writes `[a]` |
| Examples.SubtractionText | src/Stryker.Regex.Parser.UnitTest/Nodes/CharacterClass/CharacterClassNodeTest.cs:41-55 | `[abc-[a]]` is written back as such |
| Examples.SubtractionSpan | src/Stryker.Regex.Parser.UnitTest/Nodes/CharacterClass/CharacterClassNodeTest.cs:161-174 | the subtraction of `[abc-[a]]` starts at 5 |
| Examples.ConditionalSpans | src/Stryker.Regex.Parser.UnitTest/Nodes/GroupNodes/ConditionalGroupNodeTest.cs:146-177 | a conditional's condition starts at 2, its alternates at the condition's length plus 2 |
| Examples.NamedGroupChildSpans | src/Stryker.Regex.Parser.UnitTest/Nodes/GroupNodes/NamedGroupNodeTest.cs:101-118 | the children of `(?<name>abc)` start at 8 and follow one another |
| Examples.PlusBStarDescendants | src/Stryker.Regex.Parser.UnitTest/Nodes/RegexNodeTest.cs:282-307 | the descendants above `a+bc*` are `a`, `a+`, `b`, `c`, `c*`, then the concatenation |
| Examples.RemoveOntoNextSibling | src/Stryker.Regex.Parser.UnitTest/Nodes/RegexNodeTest.cs:383-398 | removing a commented first child leaves the next child carrying that comment before its own |
| Examples.RemoveOntoTwoComments | src/Stryker.Regex.Parser.UnitTest/Nodes/RegexNodeTest.cs:437-457 | the moved comment becomes the earliest of three |
| Examples.RemoveOnlyChild | src/Stryker.Regex.Parser.UnitTest/Nodes/RegexNodeTest.cs:460-488 | removing the only child leaves an empty node with its comment, or no child if it had none |
| Examples.RemoveLeavesChildlessLazy | src/Stryker.Regex.Parser.UnitTest/Nodes/RegexNodeTest.cs:460-488 | removing the uncommented operand of a lazy node after `a` leaves a childless lazy node writing `a?`, whose span as written is (0, 0) while its `?` is at (1, 1) |
| Examples.ReplaceCarriesComment | src/Stryker.Regex.Parser.UnitTest/Nodes/RegexNodeTest.cs:523-560 | a replacing node carries the old node's comment before its own |
| Examples.NamedGroupRoundTrip | src/Stryker.Regex.Parser.UnitTest/ParserTest.cs:52 | the tree of `(?<name>abc)` is written back as `(?<name>abc)` |
| Examples.AlternationRoundTrip | src/Stryker.Regex.Parser.UnitTest/ParserTest.cs:18 | the tree of `a\|b\|c` is written back as `a\|b\|c` |
| Examples.CommentedCharacterRoundTrip | src/Stryker.Regex.Parser.UnitTest/ParserTest.cs:70 | the tree of `(?#This is a comment.)a` is written back as such |

## Left out

- The grammar parser (`Parser.cs`) is not modelled. The round-trip
  patterns of its tests are proved only on trees built by hand.
- Reference identity. Checks that a result shares no object with the
  original have no counterpart for values. The model states value-level facts
  instead: every node of a result is a copy (`Editor.RebuildElsewhere`).
- Parent links. The source wires each child to its parent when the parent is
  built. The model names a node by its path from the root instead.
- `int.Parse` overflow and culture handling. A bound is an unbounded natural
  read from a non-empty string of ASCII digits.
- Unicode category names are opaque strings. Whether a name is a valid
  category is not modelled.
- `CharacterClassRangeNode` (a range such as `a-z` inside a set) is not
  modelled. A set's children are the other node kinds.
- `RegexParseError`, `RegexParseException`, `GroupUnit`, `RegexTree`,
  `IParser` and `GroupNode` are left out. They are an enum with
  reflection-based descriptions, an exception, a scratch frame of the parser,
  a wrapper, an interface and an abstract class without logic.
- The parser's results for `a?`, `a+`, `a*` and the lazy forms. They describe
  the parser, not the nodes.
- The private parameterless constructors used for copying. They only
  produce a node that is childless for a moment.
- Spans.LookaheadChildMisplaced: the lookaround offsets (4 for a lookahead, 3
  for a lookbehind) are the ones `LookaroundGroupNodeTest.cs` expects. The
  model keeps them, so the mismatch with the text is shown but not
  corrected.
- Spans.PostfixSpanInTree and the other span-in-tree lemmas cover only nodes
  whose ancestors all have their children in place (`Spans.ChildrenInPlace`).
  That excludes ancestors that are:
  - prefixed concatenations, whose start counts a prefix they do not write;
  - classes not of the documented shape;
  - quantifiers with more than one child;
  - lookarounds with children.
- Editor.EditText states the new text only for targets whose ancestors all
  write their children (`Spans.WrittenAlong`). Ancestors that do not write a
  child are leaves given children, classes not of the documented shape, and
  quantifiers with more than one child. Below them an edit changes a child
  that no text shows, and the model states only the new tree
  (`Editor.RebuildPlaces`, `Editor.RebuildElsewhere`).
- Editor.RebuildText: the same `Spans.WrittenAlong` bound as `Editor.EditText`.
- Editor.AddToConcatenation: the same `Spans.WrittenAlong` bound as `Editor.EditText`.
- Editor.RemoveFromConcatenation: the same `Spans.WrittenAlong` bound as `Editor.EditText`.
- Editor.ReplaceInConcatenation: the same `Spans.WrittenAlong` bound as `Editor.EditText`.
- Nodes.LeafText: an escaped character writes `\` followed by its escape.
  This is inferred, not pinned by a test. A parser test
  (`src/Stryker.Regex.Parser.UnitTest/ParserTest.cs:205-229`) reads `\` and a
  metacharacter into an escape node whose `Escape` is that metacharacter. It
  does not check the node's text.
- Nodes.Serialize: an alternation and a character set write their prefix
  first, like the other nodes. This is inferred: both are modelled from
  their tests, which have no prefix case.

## Findings

| source | as written | input that shows it | evidently intended | confidence | as-written member | corrected member |
|---|---|---|---|---|---|---|
| RegexParser/Nodes/LazyNode.cs:18-26 | `base.GetSpanStart() + ChildNodes.FirstOrDefault()?.ToString().Length ?? 0` parses as `(base + length) ?? 0`. Without a child the whole start (and length) becomes 0 | a lazy node without a child after `a` in a concatenation: text `a?`, span (0, 0), while its `?` is at (1, 1). `RemoveNode` of the lazy node's uncommented operand produces it (`Examples.RemoveLeavesChildlessLazy`) | `base.GetSpanStart() + (… ?? 0)`: a missing child adds nothing, so the span is the `?` | medium, not executed; removing the only, uncommented child of a lazy node leaves it childless | Spans.ChildlessLazyMisplaced | Spans.PostfixSpanInTree |
