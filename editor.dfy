/**
 * Copy-on-write edits. `AddNode`, `ReplaceNode` and `RemoveNode` are called
 * on a target node somewhere in a tree and never change that tree: they
 * return a copy of the root (or, with `returnRoot` false, of the target)
 * in which the target's children are edited. The comments written before
 * a replaced or removed child are not lost: they move onto the node that
 * takes its place.
 */
module Editor {
  import opened Comments
  import opened Strings
  import opened Nodes
  import opened Spans

  /** An edit of the target's children; a replaced or removed child is named by its index. */
  datatype Edit =
    | Add(newNode: Node)
    | Replace(index: nat, newNode: Node)
    | Remove(index: nat)

  /** The `EmptyNode` that keeps the prefix of a removed last child. */
  function EmptyWith(p: Prefix): Node {
    Node(Leaf(Empty), p, [])
  }

  /** `m` with the comments of `gone` hung before its own. */
  function TakeOver(gone: Node, m: Node): Node {
    m.(prefix := Relocate(gone.prefix, m.prefix))
  }

  /**
   * The target's new children. The kept children are copies; an added or
   * replacing node goes in as given. An index that names no child leaves a
   * plain copy.
   */
  function EditChildren(cs: seq<Node>, e: Edit): seq<Node> {
    var copies := CopyAll(cs);
    match e
    case Add(m) => copies + [m]
    case Replace(i, m) => if i < |cs| then copies[i := TakeOver(cs[i], m)] else copies
    case Remove(i) =>
      if i >= |cs| then copies
      else if cs[i].prefix == NoPrefix then copies[..i] + copies[i + 1..]
      else if i + 1 < |cs| then copies[..i] + [TakeOver(cs[i], copies[i + 1])] + copies[i + 2..]
      else copies[..i] + [EmptyWith(cs[i].prefix)]
  }

  /** The copy of the target with its children edited. */
  function Edited(target: Node, e: Edit): Node {
    Node(CopyKind(target.kind), target.prefix, EditChildren(target.children, e))
  }

  /** A copy of `root` with `t` in place of the node at `path`; every node on the way keeps its prefix. */
  function Rebuild(root: Node, path: Path, t: Node): Node
    requires ValidPath(root, path)
    decreases |path|
  {
    if |path| == 0 then t
    else
      var i := path[0];
      Node(CopyKind(root.kind), root.prefix, CopyAll(root.children)[i := Rebuild(root.children[i], path[1..], t)])
  }

  /** `AddNode`, `ReplaceNode`, `RemoveNode` on the node at `path`: the new root, or the new target. */
  function EditAt(root: Node, path: Path, e: Edit, returnRoot: bool): Node
    requires ValidPath(root, path)
  {
    var t := Edited(NodeAt(root, path), e);
    if returnRoot then Rebuild(root, path, t) else t
  }

  // ---------------------------------------------------------------------
  // The edited children

  /** `AddNode` puts the new node after all the children, whose texts stay as they were. */
  lemma AddedChildren(cs: seq<Node>, m: Node)
    ensures
      var r := EditChildren(cs, Add(m));
      |r| == |cs| + 1 && r[|cs|] == m && Texts(r) == Texts(cs) + [Serialize(m)]
  {
    var r := EditChildren(cs, Add(m));
    CopiesText(cs);
    assert Texts(r) == Texts(CopyAll(cs)) + [Serialize(m)];
  }

  /** `ReplaceNode` keeps the number of children and puts the new node, with the old node's comments, at the old node's index. */
  lemma ReplacedChildren(cs: seq<Node>, i: nat, m: Node)
    requires i < |cs|
    ensures
      var r := EditChildren(cs, Replace(i, m));
      |r| == |cs| && r[i] == TakeOver(cs[i], m) && Texts(r) == Texts(cs)[i := Serialize(TakeOver(cs[i], m))]
  {
    CopiesText(cs);
    TextsUpdate(CopyAll(cs), i, TakeOver(cs[i], m));
  }

  /** `RemoveNode` of a child without a prefix drops just that child. */
  lemma RemovedPlainChild(cs: seq<Node>, i: nat)
    requires i < |cs| && cs[i].prefix == NoPrefix
    ensures
      var r := EditChildren(cs, Remove(i));
      |r| == |cs| - 1 && Texts(r) == Texts(cs)[..i] + Texts(cs)[i + 1..]
  {
    var copies := CopyAll(cs);
    assert EditChildren(cs, Remove(i)) == copies[..i] + copies[i + 1..];
    CopiesText(cs);
    TextsDrop(copies, i);
  }

  /** `RemoveNode` of a child with a prefix and a next sibling: the sibling, carrying the comments, takes both places. */
  lemma RemovedChildBeforeSibling(cs: seq<Node>, i: nat)
    requires i + 1 < |cs| && cs[i].prefix.Comment?
    ensures
      var r := EditChildren(cs, Remove(i));
      |r| == |cs| - 1 && r[i] == TakeOver(cs[i], DeepCopy(cs[i + 1]))
      && Texts(r) == Texts(cs)[..i] + [Serialize(TakeOver(cs[i], DeepCopy(cs[i + 1])))] + Texts(cs)[i + 2..]
  {
    var copies := CopyAll(cs);
    var m := TakeOver(cs[i], copies[i + 1]);
    assert copies[i + 1] == DeepCopy(cs[i + 1]);
    assert EditChildren(cs, Remove(i)) == copies[..i] + [m] + copies[i + 2..];
    CopiesText(cs);
    TextsSplice(copies, i, i + 2, m);
  }

  /** `RemoveNode` of a last child with a prefix: an empty node carrying the prefix takes its place. */
  lemma RemovedLastChild(cs: seq<Node>, i: nat)
    requires i + 1 == |cs| && cs[i].prefix.Comment?
    ensures
      var r := EditChildren(cs, Remove(i));
      |r| == |cs| && r[i] == EmptyWith(cs[i].prefix)
      && Texts(r) == Texts(cs)[..i] + [PrefixText(cs[i].prefix)]
  {
    var copies := CopyAll(cs);
    var m := EmptyWith(cs[i].prefix);
    CopiesText(cs);
    TextsAppend(copies[..i], [m]);
    TextsSlice(copies, 0, i);
    assert Serialize(m) == PrefixText(cs[i].prefix);
  }

  /** An index that names no child leaves a copy of the children. */
  lemma NoSuchChild(cs: seq<Node>, e: Edit)
    requires (e.Replace? || e.Remove?) && e.index >= |cs|
    ensures EditChildren(cs, e) == CopyAll(cs) && Texts(EditChildren(cs, e)) == Texts(cs)
  {
    CopiesText(cs);
  }

  /**
   * Taking over comments keeps them all, the moved ones first. A node that
   * writes its prefix first writes them before its own text, a postfix node
   * between its operand and its own comments, and a concatenation, which
   * writes no prefix, not at all.
   */
  lemma TakeOverText(gone: Node, m: Node)
    ensures CommentTexts(TakeOver(gone, m).prefix) == CommentTexts(gone.prefix) + CommentTexts(m.prefix)
    ensures PrintsPrefixFirst(m.kind) ==> Serialize(TakeOver(gone, m)) == PrefixText(gone.prefix) + Serialize(m)
    ensures m.kind.Postfix? ==>
      Serialize(TakeOver(gone, m)) == OperandText(m) + PrefixText(gone.prefix) + PrefixText(m.prefix) + Operator(m.kind.op)
    ensures m.kind.Concatenation? ==> Serialize(TakeOver(gone, m)) == Serialize(m)
  {
    RelocateTexts(gone.prefix, m.prefix);
    if PrintsPrefixFirst(m.kind) {
      TakeOverWrites(gone, m);
    } else if m.kind.Postfix? {
      TakeOverPostfix(gone, m);
    } else {
      PrefixIndependent(m, Relocate(gone.prefix, m.prefix));
    }
  }

  lemma TakeOverWrites(gone: Node, m: Node)
    requires PrintsPrefixFirst(m.kind)
    ensures Serialize(TakeOver(gone, m)) == PrefixText(gone.prefix) + Serialize(m)
  {
    var moved := TakeOver(gone, m);
    RelocateText(gone.prefix, m.prefix);
    PrefixPlacement(moved);
    PrefixPlacement(m);
    PrefixIndependent(m, moved.prefix);
    Associate(PrefixText(gone.prefix), PrefixText(m.prefix), Unprefixed(m));
  }

  lemma TakeOverPostfix(gone: Node, m: Node)
    requires m.kind.Postfix?
    ensures Serialize(TakeOver(gone, m)) == OperandText(m) + PrefixText(gone.prefix) + PrefixText(m.prefix) + Operator(m.kind.op)
  {
    var moved := TakeOver(gone, m);
    RelocateText(gone.prefix, m.prefix);
    PrefixPlacement(moved);
    assert OperandText(moved) == OperandText(m);
    Associate(OperandText(m) + PrefixText(gone.prefix), PrefixText(m.prefix), Operator(m.kind.op));
  }

  /** Taking over comments commutes with copying, so a copy takes them over with the original's text. */
  lemma TakeOverCopy(gone: Node, m: Node)
    ensures TakeOver(gone, DeepCopy(m)) == DeepCopy(TakeOver(gone, m))
    ensures Serialize(TakeOver(gone, DeepCopy(m))) == Serialize(TakeOver(gone, m))
  {
    DeepCopyText(TakeOver(gone, m));
  }

  // ---------------------------------------------------------------------
  // What the edited children write, one after the other

  /** After `AddNode` the children write their old text and then the new node's. */
  lemma AddWrites(cs: seq<Node>, m: Node)
    ensures Concat(Texts(EditChildren(cs, Add(m)))) == Concat(Texts(cs)) + Serialize(m)
  {
    AddedChildren(cs, m);
    ConcatAppend(Texts(cs), [Serialize(m)]);
    ConcatOne(Serialize(m));
  }

  /**
   * After `ReplaceNode` the new node, carrying the old node's comments, is
   * written in the old node's place; when it writes its prefix first, the
   * old comments stay where they were, followed by the new node's text.
   */
  lemma ReplaceWrites(cs: seq<Node>, i: nat, m: Node)
    requires i < |cs|
    ensures
      var ts := Texts(cs);
      Concat(Texts(EditChildren(cs, Replace(i, m)))) == Concat(ts[..i]) + Serialize(TakeOver(cs[i], m)) + Concat(ts[i + 1..])
    ensures
      var ts := Texts(cs);
      PrintsPrefixFirst(m.kind) ==>
        Concat(Texts(EditChildren(cs, Replace(i, m)))) == Concat(ts[..i]) + PrefixText(cs[i].prefix) + Serialize(m) + Concat(ts[i + 1..])
  {
    ReplacedChildren(cs, i, m);
    ConcatUpdate(Texts(cs), i, Serialize(TakeOver(cs[i], m)));
    if PrintsPrefixFirst(m.kind) {
      TakeOverWrites(cs[i], m);
      InsertTwo(Concat(Texts(cs)[..i]), PrefixText(cs[i].prefix), Serialize(m), Concat(Texts(cs)[i + 1..]));
    }
  }

  /**
   * After `RemoveNode` the removed node's own text is gone. Its comments stay
   * where they were when it had none, when it was the last child (an empty
   * node keeps them) or when the next sibling writes its prefix first;
   * otherwise the next sibling takes them over as `TakeOverText` says.
   */
  lemma RemoveWrites(cs: seq<Node>, i: nat)
    requires i < |cs|
    ensures
      var ts := Texts(cs);
      (cs[i].prefix == NoPrefix || i + 1 == |cs| || PrintsPrefixFirst(cs[i + 1].kind)) ==>
        Concat(Texts(EditChildren(cs, Remove(i)))) == Concat(ts[..i]) + PrefixText(cs[i].prefix) + Concat(ts[i + 1..])
    ensures
      var ts := Texts(cs);
      cs[i].prefix.Comment? && i + 1 < |cs| ==>
        Concat(Texts(EditChildren(cs, Remove(i)))) == Concat(ts[..i]) + Serialize(TakeOver(cs[i], cs[i + 1])) + Concat(ts[i + 2..])
  {
    var ts := Texts(cs);
    if cs[i].prefix == NoPrefix {
      RemovedPlainChild(cs, i);
      ConcatDrop(ts, i);
      assert PrefixText(cs[i].prefix) == "";
    } else if i + 1 < |cs| {
      RemoveBeforeSiblingWrites(cs, i);
    } else {
      RemovedLastChild(cs, i);
      ConcatLast(ts, i, PrefixText(cs[i].prefix));
    }
  }

  /** `RemoveNode` of a commented child before a sibling: the sibling's copy takes over the comments in both places. */
  lemma RemoveBeforeSiblingWrites(cs: seq<Node>, i: nat)
    requires i + 1 < |cs| && cs[i].prefix.Comment?
    ensures
      var ts := Texts(cs);
      Concat(Texts(EditChildren(cs, Remove(i)))) == Concat(ts[..i]) + Serialize(TakeOver(cs[i], cs[i + 1])) + Concat(ts[i + 2..])
    ensures
      var ts := Texts(cs);
      PrintsPrefixFirst(cs[i + 1].kind) ==>
        Concat(Texts(EditChildren(cs, Remove(i)))) == Concat(ts[..i]) + PrefixText(cs[i].prefix) + Concat(ts[i + 1..])
  {
    var ts := Texts(cs);
    RemovedChildBeforeSibling(cs, i);
    TakeOverCopy(cs[i], cs[i + 1]);
    ConcatReplaceTwo(ts, i, Serialize(TakeOver(cs[i], cs[i + 1])));
    if PrintsPrefixFirst(cs[i + 1].kind) {
      TakeOverWrites(cs[i], cs[i + 1]);
      ConcatMerge(ts, i, PrefixText(cs[i].prefix));
    }
  }

  // ---------------------------------------------------------------------
  // The rebuilt tree

  /** The edited target sits where the target was. */
  lemma {:induction false} RebuildPlaces(root: Node, path: Path, t: Node)
    requires ValidPath(root, path)
    ensures ValidPath(Rebuild(root, path, t), path) && NodeAt(Rebuild(root, path, t), path) == t
    decreases |path|
  {
    if |path| > 0 {
      RebuildPlaces(root.children[path[0]], path[1..], t);
    }
  }

  /** Every node above the target is copied with its kind, its prefix and its number of children. */
  lemma {:induction false} RebuildKeepsAncestors(root: Node, path: Path, t: Node, k: nat)
    requires ValidPath(root, path) && k < |path|
    ensures ValidPath(root, path[..k]) && ValidPath(Rebuild(root, path, t), path[..k])
    ensures
      var before := NodeAt(root, path[..k]);
      var after := NodeAt(Rebuild(root, path, t), path[..k]);
      after.kind == CopyKind(before.kind) && after.prefix == before.prefix
      && |after.children| == |before.children|
    decreases |path|
  {
    if k > 0 {
      RebuildKeepsAncestors(root.children[path[0]], path[1..], t, k - 1);
      assert path[..k][1..] == path[1..][..k - 1];
    }
  }

  /** Two paths part ways: at some depth they lead to different children. */
  predicate Diverge(p: Path, q: Path)
    decreases |p|
  {
    |p| > 0 && |q| > 0 && (p[0] != q[0] || Diverge(p[1..], q[1..]))
  }

  /** A copy of a tree holds a copy of each of its nodes, at the same path. */
  lemma {:induction false} CopyAt(n: Node, p: Path)
    requires ValidPath(n, p)
    ensures ValidPath(DeepCopy(n), p) && NodeAt(DeepCopy(n), p) == DeepCopy(NodeAt(n, p))
    decreases |p|
  {
    if |p| > 0 {
      assert DeepCopy(n).children[p[0]] == DeepCopy(n.children[p[0]]);
      CopyAt(n.children[p[0]], p[1..]);
    }
  }

  /** Away from the target's path the rebuilt tree is a copy of the original. */
  lemma {:induction false} RebuildElsewhere(root: Node, path: Path, t: Node, p: Path)
    requires ValidPath(root, path) && ValidPath(root, p) && Diverge(p, path)
    ensures ValidPath(Rebuild(root, path, t), p) && NodeAt(Rebuild(root, path, t), p) == DeepCopy(NodeAt(root, p))
    decreases |p|
  {
    var i := p[0];
    var r := Rebuild(root, path, t);
    if i != path[0] {
      assert r.children[i] == DeepCopy(root.children[i]);
      CopyAt(root.children[i], p[1..]);
    } else {
      RebuildElsewhere(root.children[i], path[1..], t, p[1..]);
    }
  }

  /** The copy of an ancestor has the kind of a copy. */
  lemma RebuildKind(root: Node, path: Path, t: Node)
    requires ValidPath(root, path) && t.kind == CopyKind(NodeAt(root, path).kind)
    ensures Rebuild(root, path, t).kind == CopyKind(root.kind)
  {
  }

  /** A copied node still writes its children in full when each child keeps the kind of a copy. */
  lemma WrittenKept(n: Node, m: Node)
    requires ChildrenWritten(n)
    requires m.kind == CopyKind(n.kind) && m.prefix == n.prefix && |m.children| == |n.children|
    requires forall k | 0 <= k < |n.children| :: m.children[k].kind == CopyKind(n.children[k].kind)
    ensures ChildrenWritten(m)
  {
    CopyKindKeeps(n.kind);
    if n.kind.CharacterClass? && |n.children| > 0 {
      CopyKindKeeps(n.children[0].kind);
      if |n.children| > 1 {
        CopyKindKeeps(n.children[1].kind);
      }
    }
  }

  /** A copied node with one child's text exchanged writes the same text around that child. */
  lemma AroundKept(n: Node, m: Node, i: nat)
    requires i < |n.children|
    requires m.kind == CopyKind(n.kind) && m.prefix == n.prefix && |m.children| == |n.children|
    requires forall k | 0 <= k < |n.children| :: m.children[k].kind == CopyKind(n.children[k].kind)
    requires forall k | 0 <= k < |n.children| && k != i :: Serialize(m.children[k]) == Serialize(n.children[k])
    ensures Before(m, i) == Before(n, i) && After(m, i) == After(n, i)
  {
    var ts := Texts(n.children);
    var us := Texts(m.children);
    CopyKindKeeps(n.kind);
    assert us[..i] == ts[..i];
    assert us[i + 1..] == ts[i + 1..];
    if n.kind.CharacterClass? {
      if i > 0 {
        assert us[0] == ts[0];
      }
      if i == 0 && |n.children| > 1 {
        CopyKindKeeps(n.children[1].kind);
        assert us[1] == ts[1];
      }
    }
  }

  /** The rebuilt parent of the rebuilt child `r` is the parent copied around that child. */
  lemma ParentAround(n: Node, i: nat, r: Node)
    requires ChildrenWritten(n) && i < |n.children| && r.kind == CopyKind(n.children[i].kind)
    ensures
      var m := Node(CopyKind(n.kind), n.prefix, CopyAll(n.children)[i := r]);
      Serialize(m) == Before(n, i) + Serialize(r) + After(n, i)
  {
    var m := Node(CopyKind(n.kind), n.prefix, CopyAll(n.children)[i := r]);
    forall k | 0 <= k < |n.children| && k != i ensures Serialize(m.children[k]) == Serialize(n.children[k]) {
      DeepCopyText(n.children[k]);
    }
    forall k | 0 <= k < |n.children| ensures m.children[k].kind == CopyKind(n.children[k].kind) {
      if k != i {
        assert m.children[k] == DeepCopy(n.children[k]);
      }
    }
    WrittenKept(n, m);
    AroundKept(n, m, i);
    ChildWritten(m, i);
  }

  /**
   * Rebuilding with `t` changes the root's text only where the old node's
   * text was, at its text offset: there it writes `t`.
   */
  lemma {:induction false} RebuildText(root: Node, path: Path, t: Node)
    requires ValidPath(root, path) && WrittenAlong(root, path)
    requires t.kind == CopyKind(NodeAt(root, path).kind)
    ensures Spliced(Serialize(root), TextOffset(root, path), |Serialize(NodeAt(root, path))|, Serialize(t),
                    Serialize(Rebuild(root, path, t)))
    decreases |path|
  {
    if |path| > 0 {
      RebuildText(root.children[path[0]], path[1..], t);
      RebuildStep(root, path, t);
    }
  }

  /** One level of `RebuildText`: a splice in child `path[0]` is a splice in the parent. */
  lemma RebuildStep(root: Node, path: Path, t: Node)
    requires ValidPath(root, path) && WrittenAlong(root, path) && |path| > 0
    requires t.kind == CopyKind(NodeAt(root, path).kind)
    requires
      var c := root.children[path[0]];
      Spliced(Serialize(c), TextOffset(c, path[1..]), |Serialize(NodeAt(c, path[1..]))|, Serialize(t),
              Serialize(Rebuild(c, path[1..], t)))
    ensures Spliced(Serialize(root), TextOffset(root, path), |Serialize(NodeAt(root, path))|, Serialize(t),
                    Serialize(Rebuild(root, path, t)))
  {
    var i := path[0];
    var c := root.children[i];
    var rest := path[1..];
    RebuiltAround(root, path, t);
    SpliceShift(Serialize(root), Serialize(Rebuild(root, path, t)), Before(root, i), Serialize(c), After(root, i),
                Serialize(Rebuild(c, rest, t)), TextOffset(c, rest), |Serialize(NodeAt(c, rest))|, Serialize(t),
                TextOffset(root, path));
  }

  /** The original and the rebuilt parent write the same text around child `path[0]`. */
  lemma RebuiltAround(root: Node, path: Path, t: Node)
    requires ValidPath(root, path) && WrittenAlong(root, path) && |path| > 0
    requires t.kind == CopyKind(NodeAt(root, path).kind)
    ensures Serialize(root) == Before(root, path[0]) + Serialize(root.children[path[0]]) + After(root, path[0])
    ensures Serialize(Rebuild(root, path, t))
         == Before(root, path[0]) + Serialize(Rebuild(root.children[path[0]], path[1..], t)) + After(root, path[0])
  {
    var i := path[0];
    var c := root.children[i];
    var rest := path[1..];
    RebuildKind(c, rest, t);
    RebuiltParent(root, i, Rebuild(c, rest, t));
  }

  /** The parent's text and the rebuilt parent's text around child `i`. */
  lemma RebuiltParent(n: Node, i: nat, r: Node)
    requires ChildrenWritten(n) && i < |n.children| && r.kind == CopyKind(n.children[i].kind)
    ensures Serialize(n) == Before(n, i) + Serialize(n.children[i]) + After(n, i)
    ensures Serialize(Node(CopyKind(n.kind), n.prefix, CopyAll(n.children)[i := r])) == Before(n, i) + Serialize(r) + After(n, i)
  {
    ParentAround(n, i, r);
    ChildWritten(n, i);
  }

  // ---------------------------------------------------------------------
  // The edits as seen from the root

  /** With `returnRoot` false the edit returns the edited target, the node found at the target's path in the new root. */
  lemma EditReturnsTarget(root: Node, path: Path, e: Edit)
    requires ValidPath(root, path)
    ensures ValidPath(EditAt(root, path, e, true), path)
    ensures EditAt(root, path, e, false) == NodeAt(EditAt(root, path, e, true), path)
  {
    RebuildPlaces(root, path, Edited(NodeAt(root, path), e));
  }

  /**
   * An edit changes the root's text only where the target's text was, at
   * the target's text offset, which is the position its span counts from
   * wherever the child offsets agree with the text (`Spans.OffsetIsPosition`).
   */
  lemma EditText(root: Node, path: Path, e: Edit)
    requires ValidPath(root, path) && WrittenAlong(root, path)
    ensures
      var q := TextOffset(root, path);
      var s := Serialize(root);
      var len := |Serialize(NodeAt(root, path))|;
      q + len <= |s|
      && Serialize(EditAt(root, path, e, true)) == s[..q] + Serialize(Edited(NodeAt(root, path), e)) + s[q + len..]
  {
    RebuildText(root, path, Edited(NodeAt(root, path), e));
  }

  /** Away from the target's path, the new root holds copies of the original's nodes. */
  lemma EditElsewhere(root: Node, path: Path, e: Edit, p: Path)
    requires ValidPath(root, path) && ValidPath(root, p) && Diverge(p, path)
    ensures ValidPath(EditAt(root, path, e, true), p)
    ensures NodeAt(EditAt(root, path, e, true), p) == DeepCopy(NodeAt(root, p))
    ensures Serialize(NodeAt(EditAt(root, path, e, true), p)) == Serialize(NodeAt(root, p))
  {
    RebuildElsewhere(root, path, Edited(NodeAt(root, path), e), p);
    DeepCopyText(NodeAt(root, p));
  }

  /** `EditText` with the edited target's text given by name. */
  lemma EditWrites(root: Node, path: Path, e: Edit, w: string)
    requires ValidPath(root, path) && WrittenAlong(root, path)
    requires Serialize(Edited(NodeAt(root, path), e)) == w
    ensures
      var q := TextOffset(root, path);
      var s := Serialize(root);
      var len := |Serialize(NodeAt(root, path))|;
      q + len <= |s| && Serialize(EditAt(root, path, e, true)) == s[..q] + w + s[q + len..]
  {
    EditText(root, path, e);
  }

  /** An edited concatenation writes its edited children one after the other. */
  lemma EditedConcatenation(n: Node, e: Edit)
    requires n.kind == Concatenation
    ensures Serialize(Edited(n, e)) == Concat(Texts(EditChildren(n.children, e)))
    ensures Serialize(n) == Concat(Texts(n.children))
  {
  }

  /**
   * `RemoveNode` on a concatenation: the root's text loses the removed
   * node's own text; its comments stay in place, or go where the next
   * sibling's takeover puts them.
   */
  lemma RemoveFromConcatenation(root: Node, path: Path, i: nat)
    requires ValidPath(root, path) && WrittenAlong(root, path)
    requires NodeAt(root, path).kind == Concatenation && i < |NodeAt(root, path).children|
    ensures
      TextOffset(root, path) + |Serialize(NodeAt(root, path))| <= |Serialize(root)|
    ensures
      var n := NodeAt(root, path);
      var cs := n.children;
      var ts := Texts(cs);
      var q := TextOffset(root, path);
      var s := Serialize(root);
      (cs[i].prefix == NoPrefix || i + 1 == |cs| || PrintsPrefixFirst(cs[i + 1].kind)) ==>
        Serialize(EditAt(root, path, Remove(i), true))
          == s[..q] + (Concat(ts[..i]) + PrefixText(cs[i].prefix) + Concat(ts[i + 1..])) + s[q + |Serialize(n)|..]
    ensures
      var n := NodeAt(root, path);
      var cs := n.children;
      var ts := Texts(cs);
      var q := TextOffset(root, path);
      var s := Serialize(root);
      cs[i].prefix.Comment? && i + 1 < |cs| ==>
        Serialize(EditAt(root, path, Remove(i), true))
          == s[..q] + (Concat(ts[..i]) + Serialize(TakeOver(cs[i], cs[i + 1])) + Concat(ts[i + 2..])) + s[q + |Serialize(n)|..]
  {
    var n := NodeAt(root, path);
    var cs := n.children;
    var ts := Texts(cs);
    EditedConcatenation(n, Remove(i));
    RemoveWrites(cs, i);
    if cs[i].prefix == NoPrefix || i + 1 == |cs| || PrintsPrefixFirst(cs[i + 1].kind) {
      EditWrites(root, path, Remove(i), Concat(ts[..i]) + PrefixText(cs[i].prefix) + Concat(ts[i + 1..]));
    } else {
      EditWrites(root, path, Remove(i), Concat(ts[..i]) + Serialize(TakeOver(cs[i], cs[i + 1])) + Concat(ts[i + 2..]));
    }
  }

  /** `AddNode` on a concatenation: the new node's text follows the target's text in the root's text. */
  lemma AddToConcatenation(root: Node, path: Path, m: Node)
    requires ValidPath(root, path) && WrittenAlong(root, path) && NodeAt(root, path).kind == Concatenation
    ensures
      var n := NodeAt(root, path);
      var q := TextOffset(root, path);
      var s := Serialize(root);
      q + |Serialize(n)| <= |s|
      && Serialize(EditAt(root, path, Add(m), true)) == s[..q] + (Serialize(n) + Serialize(m)) + s[q + |Serialize(n)|..]
  {
    var n := NodeAt(root, path);
    EditedConcatenation(n, Add(m));
    AddWrites(n.children, m);
    EditWrites(root, path, Add(m), Serialize(n) + Serialize(m));
  }

  /**
   * `ReplaceNode` on a concatenation: the new node, carrying the old node's
   * comments, stands in for the old node's text; a new node that writes its
   * prefix first is written right after those comments.
   */
  lemma ReplaceInConcatenation(root: Node, path: Path, i: nat, m: Node)
    requires ValidPath(root, path) && WrittenAlong(root, path)
    requires NodeAt(root, path).kind == Concatenation && i < |NodeAt(root, path).children|
    ensures
      var n := NodeAt(root, path);
      var ts := Texts(n.children);
      var q := TextOffset(root, path);
      var s := Serialize(root);
      q + |Serialize(n)| <= |s|
      && Serialize(EditAt(root, path, Replace(i, m), true))
        == s[..q] + (Concat(ts[..i]) + Serialize(TakeOver(n.children[i], m)) + Concat(ts[i + 1..])) + s[q + |Serialize(n)|..]
    ensures
      var n := NodeAt(root, path);
      var ts := Texts(n.children);
      var q := TextOffset(root, path);
      var s := Serialize(root);
      PrintsPrefixFirst(m.kind) ==>
        Serialize(EditAt(root, path, Replace(i, m), true))
          == s[..q] + (Concat(ts[..i]) + PrefixText(n.children[i].prefix) + Serialize(m) + Concat(ts[i + 1..]))
             + s[q + |Serialize(n)|..]
  {
    var n := NodeAt(root, path);
    var ts := Texts(n.children);
    EditedConcatenation(n, Replace(i, m));
    ReplaceWrites(n.children, i, m);
    if PrintsPrefixFirst(m.kind) {
      EditWrites(root, path, Replace(i, m),
                 Concat(ts[..i]) + PrefixText(n.children[i].prefix) + Serialize(m) + Concat(ts[i + 1..]));
    } else {
      EditWrites(root, path, Replace(i, m), Concat(ts[..i]) + Serialize(TakeOver(n.children[i], m)) + Concat(ts[i + 1..]));
    }
  }
}
