/**
 * The lowercase trie of src/trie.c.  Every node has a leaf mark and 26 child
 * slots, one per letter 'a' .. 'z'.  `insert` walks a word down from the root,
 * creating the nodes that are missing, and marks the last one as a leaf;
 * `search` walks it without creating anything; `printTrie` writes every leaf's
 * word, children in letter order, into a shared buffer and prints it.
 *
 * The abstract value of a node is a Tree; the heap nodes (class Node) carry
 * it in a ghost field that Valid() ties to their real fields.
 */
module Trie {
  import opened Bytes

  /** The number of child slots of a node. */
  const CHARS: nat := 26
  /** The byte 'a', the letter of child slot 0. */
  const LOWER_A: uint8 := 97

  // ---------------------------------------------------------------------------
  // Abstract trees

  /** A node's leaf mark and its 26 child slots. */
  datatype Tree = Tree(leaf: bool, kids: seq<Option<Tree>>)

  /** Every node of the tree has exactly CHARS child slots. */
  predicate WellFormed(t: Tree)
    decreases t
  {
    |t.kids| == CHARS && forall i :: 0 <= i < CHARS ==> t.kids[i].Some? ==> WellFormed(t.kids[i].value)
  }

  /** What `createNewNode` yields: no leaf mark and all children NULL. */
  function Empty(): (t: Tree)
    ensures WellFormed(t) && !t.leaf && forall i :: 0 <= i < CHARS ==> t.kids[i].None?
  {
    Tree(false, seq(CHARS, _ => None))
  }

  /** A word `insert` accepts: every byte is one of 'a' .. 'z'. */
  predicate IsWord(w: bytes) {
    forall i :: 0 <= i < |w| ==> LOWER_A <= w[i] < LOWER_A + CHARS
  }

  /**
   * A word `search` may be given: no byte below 'a', where the index would be
   * negative (bytes from 128 on are negative as a signed `char`).
   */
  predicate IsSearchable(w: bytes) {
    forall i :: 0 <= i < |w| ==> LOWER_A <= w[i] < 128
  }

  /** The letter's slot: the byte's distance from 'a'. */
  function Slot(c: uint8): int {
    c - LOWER_A
  }

  /** The node `search` reaches along `w`: None when a slot is 26 or more, or a child is missing. */
  function Find(t: Tree, w: bytes): Option<Tree>
    requires WellFormed(t)
    decreases |w|
  {
    if |w| == 0 then Some(t)
    else if Slot(w[0]) < 0 || CHARS <= Slot(w[0]) then None
    else match t.kids[Slot(w[0])]
      case None => None
      case Some(c) => Find(c, w[1..])
  }

  /** The word is stored: `search` succeeds and the node it returns is a leaf. */
  predicate Contains(t: Tree, w: bytes)
    requires WellFormed(t)
  {
    Find(t, w).Some? && Find(t, w).value.leaf
  }

  /** `insert`: create the missing nodes along `w` and mark the last one a leaf. */
  function Inserted(t: Tree, w: bytes): (r: Tree)
    requires WellFormed(t) && IsWord(w)
    ensures WellFormed(r)
    decreases |w|
  {
    if |w| == 0 then t.(leaf := true)
    else
      var i := Slot(w[0]);
      var child := if t.kids[i].Some? then t.kids[i].value else Empty();
      t.(kids := t.kids[i := Some(Inserted(child, w[1..]))])
  }

  predicate IsPrefix(v: bytes, w: bytes) {
    |v| <= |w| && w[..|v|] == v
  }

  /** The empty trie holds one node, the root, and no word. */
  lemma {:induction false} FindEmpty(w: bytes)
    ensures Find(Empty(), w).Some? <==> w == []
    ensures !Contains(Empty(), w)
  {
    if |w| > 0 && 0 <= Slot(w[0]) < CHARS {
      assert Empty().kids[Slot(w[0])].None?;
    }
  }

  /**
   * After `insert(t, w)`, `search` succeeds on exactly the words it succeeded
   * on before and the prefixes of `w`.
   */
  lemma {:induction false} InsertFinds(t: Tree, w: bytes, v: bytes)
    requires WellFormed(t) && IsWord(w)
    ensures Find(Inserted(t, w), v).Some? <==> Find(t, v).Some? || IsPrefix(v, w)
    decreases |w|
  {
    if |w| > 0 && |v| > 0 {
      var i := Slot(w[0]);
      var child := if t.kids[i].Some? then t.kids[i].value else Empty();
      if v[0] == w[0] {
        InsertFinds(child, w[1..], v[1..]);
        if t.kids[i].None? {
          FindEmpty(v[1..]);
        }
        assert IsPrefix(v, w) <==> IsPrefix(v[1..], w[1..]) by {
          if IsPrefix(v[1..], w[1..]) {
            assert w[..|v|] == [w[0]] + w[1..][..|v| - 1];
          }
          if IsPrefix(v, w) {
            assert w[1..][..|v| - 1] == w[..|v|][1..];
          }
        }
      }
    }
  }

  /**
   * After `insert(t, w)` the stored words are those stored before and `w`: no
   * other word's leaf mark changes.
   */
  lemma {:induction false} InsertContains(t: Tree, w: bytes, v: bytes)
    requires WellFormed(t) && IsWord(w)
    ensures Contains(Inserted(t, w), v) <==> v == w || Contains(t, v)
    decreases |w|
  {
    if |w| == 0 {
      if |v| > 0 {
        assert Inserted(t, w).kids == t.kids;
      }
    } else if |v| > 0 {
      var i := Slot(w[0]);
      var child := if t.kids[i].Some? then t.kids[i].value else Empty();
      if v[0] == w[0] {
        InsertContains(child, w[1..], v[1..]);
        if t.kids[i].None? {
          FindEmpty(v[1..]);
        }
        assert v == w <==> v[1..] == w[1..] by {
          if v[1..] == w[1..] {
            assert v == [v[0]] + v[1..] && w == [w[0]] + w[1..];
          }
        }
      }
    }
  }

  /** Insert-then-search: the inserted word is found, and the node found is a leaf. */
  lemma InsertThenSearch(t: Tree, w: bytes)
    requires WellFormed(t) && IsWord(w)
    ensures Find(Inserted(t, w), w).Some? && Find(Inserted(t, w), w).value.leaf
  {
    InsertContains(t, w, w);
  }

  /** Inserting a word twice is the same as inserting it once. */
  lemma {:induction false} InsertIdempotent(t: Tree, w: bytes)
    requires WellFormed(t) && IsWord(w)
    ensures Inserted(Inserted(t, w), w) == Inserted(t, w)
    decreases |w|
  {
    if |w| > 0 {
      var i := Slot(w[0]);
      var child := if t.kids[i].Some? then t.kids[i].value else Empty();
      InsertIdempotent(child, w[1..]);
      var once := Inserted(t, w);
      assert once.kids[i] == Some(Inserted(child, w[1..]));
      assert once.kids[i := Some(Inserted(Inserted(child, w[1..]), w[1..]))] == once.kids;
    }
  }

  // ---------------------------------------------------------------------------
  // The order of printTrie

  /** Byte-wise lexicographic order, as `strcmp` compares: `a` sorts strictly before `b`. */
  predicate LexLess(a: bytes, b: bytes)
    decreases |a|
  {
    |b| > 0 && (|a| == 0 || a[0] < b[0] || (a[0] == b[0] && LexLess(a[1..], b[1..])))
  }

  predicate StrictlySorted(s: seq<bytes>) {
    forall i, j :: 0 <= i < j < |s| ==> LexLess(s[i], s[j])
  }

  /** The letter of child slot `i`. */
  function Letter(i: nat): uint8
    requires i < CHARS
  {
    LOWER_A + i
  }

  /** The line `printTrie` prints for the node itself: its word, if it is a leaf. */
  function LeafLine(t: Tree, p: bytes): seq<bytes> {
    if t.leaf then [p] else []
  }

  /** What `printTrie(t, p)` prints: the node's own word, then each child's lines in slot order. */
  function Listing(t: Tree, p: bytes): seq<bytes>
    requires WellFormed(t)
    decreases t, CHARS + 1
  {
    LeafLine(t, p) + KidsListing(t, CHARS, p)
  }

  /** The lines of the children in slots 0 .. n - 1. */
  function KidsListing(t: Tree, n: nat, p: bytes): seq<bytes>
    requires WellFormed(t) && n <= CHARS
    decreases t, n
  {
    if n == 0 then []
    else KidsListing(t, n - 1, p) + KidListing(t, n - 1, p)
  }

  /** The lines of the child in slot `i`, if there is one. */
  function KidListing(t: Tree, i: nat, p: bytes): seq<bytes>
    requires WellFormed(t) && i < CHARS
    decreases t, 0
  {
    match t.kids[i]
    case None => []
    case Some(c) => Listing(c, p + [Letter(i)])
  }

  /** The length of the longest path below the node: how far `printTrie` writes past `len`. */
  function Depth(t: Tree): nat
    requires WellFormed(t)
    decreases t, CHARS + 1
  {
    KidsDepth(t, CHARS)
  }

  function KidsDepth(t: Tree, n: nat): nat
    requires WellFormed(t) && n <= CHARS
    decreases t, n
  {
    if n == 0 then 0
    else
      var d := match t.kids[n - 1] case None => 0 case Some(c) => 1 + Depth(c);
      if d < KidsDepth(t, n - 1) then KidsDepth(t, n - 1) else d
  }

  /** Every line lies below `p`: it extends `p` by a stored word. */
  predicate Below(x: bytes, t: Tree, p: bytes)
    requires WellFormed(t)
  {
    IsPrefix(p, x) && Contains(t, x[|p|..])
  }

  /** The lines of the children in the first `n` slots are the words below `p` that continue with one of their letters. */
  lemma {:induction false} KidsListingMembers(t: Tree, n: nat, p: bytes, x: bytes)
    requires WellFormed(t) && n <= CHARS
    ensures x in KidsListing(t, n, p) <==>
      Below(x, t, p) && |x| > |p| && LOWER_A <= x[|p|] < LOWER_A + n
    decreases t, n
  {
    if n > 0 {
      KidsListingMembers(t, n - 1, p, x);
      var i := n - 1;
      var q := p + [Letter(i)];
      match t.kids[i]
      case None =>
      case Some(c) =>
        ListingMembers(c, q, x);
        BelowChild(t, p, i, x);
    }
  }

  /** Going down one slot: `x` lies below the child in slot `i` exactly when it lies below `t` through letter `i`. */
  lemma BelowChild(t: Tree, p: bytes, i: nat, x: bytes)
    requires WellFormed(t) && i < CHARS && t.kids[i].Some?
    ensures Below(x, t.kids[i].value, p + [Letter(i)]) <==>
      Below(x, t, p) && |x| > |p| && x[|p|] == Letter(i)
  {
    var q := p + [Letter(i)];
    if |x| > |p| && IsPrefix(p, x) && x[|p|] == Letter(i) {
      assert x[..|q|] == x[..|p|] + [x[|p|]];
      assert x[|p|..][1..] == x[|q|..];
      assert x[|p|..][0] == Letter(i);
    }
    if IsPrefix(q, x) {
      assert x[..|p|] == x[..|q|][..|p|];
      assert x[|p|] == x[..|q|][|p|];
    }
  }

  /** The lines `printTrie` prints below `p` are exactly the stored words, each after `p`. */
  lemma {:induction false} ListingMembers(t: Tree, p: bytes, x: bytes)
    requires WellFormed(t)
    ensures x in Listing(t, p) <==> Below(x, t, p)
    decreases t, CHARS + 1
  {
    KidsListingMembers(t, CHARS, p, x);
    if x == p {
      assert x[|p|..] == [];
    }
    if Below(x, t, p) && |x| > |p| {
      var v := x[|p|..];
      assert v[0] == x[|p|];
      assert Find(t, v).Some?;
    }
    if Below(x, t, p) && |x| <= |p| {
      assert x == p;
    }
  }

  /** printTrie from the root prints exactly the stored words. */
  lemma ListingIsContents(t: Tree, w: bytes)
    requires WellFormed(t)
    ensures w in Listing(t, []) <==> Contains(t, w)
  {
    ListingMembers(t, [], w);
    assert w[0..] == w;
  }

  /** A word sorts after each of its proper prefixes. */
  lemma {:induction false} PrefixLess(p: bytes, x: bytes)
    requires IsPrefix(p, x) && |x| > |p|
    ensures LexLess(p, x)
    decreases |p|
  {
    if |p| > 0 {
      assert x[1..][..|p| - 1] == x[..|p|][1..];
      PrefixLess(p[1..], x[1..]);
    }
  }

  /** Two words with a common prefix sort by the first byte after it. */
  lemma {:induction false} BranchLess(p: bytes, a: bytes, b: bytes)
    requires IsPrefix(p, a) && IsPrefix(p, b) && |a| > |p| && |b| > |p| && a[|p|] < b[|p|]
    ensures LexLess(a, b)
    decreases |p|
  {
    if |p| > 0 {
      assert a[1..][..|p| - 1] == a[..|p|][1..];
      assert b[1..][..|p| - 1] == b[..|p|][1..];
      assert a[0] == a[..|p|][0] && b[0] == b[..|p|][0];
      BranchLess(p[1..], a[1..], b[1..]);
    }
  }

  lemma ConcatSorted(a: seq<bytes>, b: seq<bytes>)
    requires StrictlySorted(a) && StrictlySorted(b)
    requires forall x, y :: x in a && y in b ==> LexLess(x, y)
    ensures StrictlySorted(a + b)
  {
    forall i, j | 0 <= i < j < |a + b|
      ensures LexLess((a + b)[i], (a + b)[j])
    {
      if j >= |a| && i < |a| {
        assert (a + b)[i] in a && (a + b)[j] in b;
      }
    }
  }

  /** printTrie prints the words in strictly increasing `strcmp` order, hence each once. */
  lemma {:induction false} ListingSorted(t: Tree, p: bytes)
    requires WellFormed(t)
    ensures StrictlySorted(Listing(t, p))
    decreases t, CHARS + 1
  {
    KidsListingSorted(t, CHARS, p);
    forall x, y | x in LeafLine(t, p) && y in KidsListing(t, CHARS, p)
      ensures LexLess(x, y)
    {
      KidsListingMembers(t, CHARS, p, y);
      PrefixLess(p, y);
    }
    ConcatSorted(LeafLine(t, p), KidsListing(t, CHARS, p));
  }

  lemma {:induction false} KidsListingSorted(t: Tree, n: nat, p: bytes)
    requires WellFormed(t) && n <= CHARS
    ensures StrictlySorted(KidsListing(t, n, p))
    decreases t, n
  {
    if n > 0 {
      var i := n - 1;
      KidsListingSorted(t, i, p);
      match t.kids[i]
      case None =>
        assert KidsListing(t, n, p) == KidsListing(t, i, p);
      case Some(c) =>
        ListingSorted(c, p + [Letter(i)]);
        forall x, y | x in KidsListing(t, i, p) && y in KidListing(t, i, p)
          ensures LexLess(x, y)
        {
          KidsListingMembers(t, i, p, x);
          ListingMembers(c, p + [Letter(i)], y);
          BelowChild(t, p, i, y);
          BranchLess(p, x, y);
        }
        ConcatSorted(KidsListing(t, i, p), KidListing(t, i, p));
    }
  }

  // ---------------------------------------------------------------------------
  // What printTrie writes

  /** A child's subtree is at least one level shallower than its parent. */
  lemma {:induction false} KidsDepthBound(t: Tree, n: nat, i: nat)
    requires WellFormed(t) && i < n <= CHARS && t.kids[i].Some?
    ensures 1 + Depth(t.kids[i].value) <= KidsDepth(t, n)
    decreases n
  {
    if i < n - 1 {
      KidsDepthBound(t, n - 1, i);
    }
  }

  /** Each line `printf("%.*s\n", len, str)` writes: the buffer's first `len` bytes, up to a NUL. */
  function Printed(lines: seq<bytes>): (out: seq<bytes>)
  {
    seq(|lines|, k requires 0 <= k < |lines| => CString(lines[k]))
  }

  lemma PrintedAppend(a: seq<bytes>, b: seq<bytes>)
    ensures Printed(a + b) == Printed(a) + Printed(b)
  {
  }

  /** The words `search` can reach are made of letters. */
  lemma {:induction false} FoundIsWord(t: Tree, v: bytes)
    requires WellFormed(t) && Find(t, v).Some?
    ensures IsWord(v)
    decreases |v|
  {
    if |v| > 0 {
      FoundIsWord(t.kids[Slot(v[0])].value, v[1..]);
      assert forall k :: 1 <= k < |v| ==> v[k] == v[1..][k - 1];
    }
  }

  /**
   * When the caller's prefix holds no NUL, printTrie prints each word in full:
   * every line is the prefix followed by one stored word.
   */
  lemma PrintedInFull(t: Tree, p: bytes)
    requires WellFormed(t) && NoNul(p)
    ensures Printed(Listing(t, p)) == Listing(t, p)
  {
    var lines := Listing(t, p);
    forall k | 0 <= k < |lines|
      ensures CString(lines[k]) == lines[k]
    {
      var x := lines[k];
      ListingMembers(t, p, x);
      FoundIsWord(t, x[|p|..]);
      assert NoNul(x) by {
        forall j | 0 <= j < |x| ensures x[j] != NUL {
          if j < |p| {
            assert x[j] == x[..|p|][j];
          } else {
            assert x[j] == x[|p|..][j - |p|];
          }
        }
      }
      CStringUpToNul(x, []);
      assert x + [] == x;
    }
  }

  // ---------------------------------------------------------------------------
  // Heap nodes

  /**
   * A `struct Trie` node.  `model` is the tree the node stands for and `Repr`
   * the node, its child array and everything below them.
   */
  class Node {
    var isLeaf: bool
    const children: array<Node?>
    ghost var model: Tree
    ghost var Repr: set<object>

    ghost predicate Valid()
      reads this, Repr
      decreases Repr
    {
      this in Repr && children in Repr && children.Length == CHARS &&
      WellFormed(model) && model.leaf == isLeaf &&
      (forall i :: 0 <= i < CHARS ==> (children[i] == null <==> model.kids[i].None?)) &&
      (forall i :: 0 <= i < CHARS && children[i] != null ==>
        children[i] in Repr && children[i].Repr <= Repr &&
        this !in children[i].Repr && children !in children[i].Repr &&
        children[i].Valid() && children[i].model == model.kids[i].value) &&
      (forall i, j :: 0 <= i < j < CHARS && children[i] != null && children[j] != null ==>
        children[i].Repr !! children[j].Repr)
    }

    /** `createNewNode`: a node with no leaf mark and all children NULL. */
    constructor ()
      ensures Valid() && fresh(Repr) && model == Empty()
    {
      var a := new Node?[CHARS];
      for i := 0 to CHARS
        invariant forall j :: 0 <= j < i ==> a[j] == null
      {
        a[i] := null;
      }
      isLeaf := false;
      children := a;
      model := Empty();
      Repr := {this, a};
    }

    /**
     * `insert`: the process exits on a byte past 'z'; otherwise the node now
     * stands for the tree with `w` inserted.
     */
    method Insert(w: bytes) returns (exited: bool)
      requires Valid() && IsSearchable(w)
      modifies Repr
      ensures Valid() && fresh(Repr - old(Repr))
      ensures exited <==> !IsWord(w)
      ensures !exited ==> model == Inserted(old(model), w)
      decreases |w|, 1
    {
      if |w| == 0 {
        isLeaf := true;
        model := model.(leaf := true);
        return false;
      }
      if CHARS <= Slot(w[0]) {
        return true;
      }
      var i := Slot(w[0]);
      var c := ChildAt(i);
      exited := InsertBelow(i, w[1..]);
      assert IsWord(w) <==> IsWord(w[1..]) by {
        assert forall k :: 1 <= k < |w| ==> w[k] == w[1..][k - 1];
      }
    }

    /** The recursive call of `insert` on the child in slot `i`, which exists. */
    method InsertBelow(i: nat, v: bytes) returns (exited: bool)
      requires Valid() && i < CHARS && children[i] != null && IsSearchable(v)
      modifies Repr
      ensures Valid() && fresh(Repr - old(Repr))
      ensures exited <==> !IsWord(v)
      ensures !exited ==> model == old(model).(kids := old(model.kids)[i := Some(Inserted(old(model.kids[i].value), v))])
      decreases |v| + 1, 0
    {
      var c := children[i];
      exited := c.Insert(v);
      Repr, model := Repr + c.Repr, model.(kids := model.kids[i := Some(c.model)]);
    }

    /** The child in slot `i`, made by `createNewNode` when the slot is NULL. */
    method ChildAt(i: nat) returns (c: Node)
      requires Valid() && i < CHARS
      modifies this, children
      ensures Valid() && fresh(Repr - old(Repr))
      ensures c == children[i] && c in Repr && c.Repr <= Repr && this !in c.Repr && children !in c.Repr
      ensures c.model == if old(model).kids[i].Some? then old(model).kids[i].value else Empty()
      ensures model == old(model).(kids := old(model).kids[i := Some(c.model)])
    {
      if children[i] == null {
        c := AddChild(i);
      } else {
        c := children[i];
        assert model.kids[i := Some(c.model)] == model.kids;
      }
    }

    /** `createNewNode` into the NULL slot `i`. */
    method AddChild(i: nat) returns (c: Node)
      requires Valid() && i < CHARS && children[i] == null
      modifies this, children
      ensures Valid() && fresh(Repr - old(Repr))
      ensures c == children[i] && c in Repr && c.Repr <= Repr && this !in c.Repr && children !in c.Repr
      ensures c.model == Empty() && model == old(model).(kids := old(model).kids[i := Some(Empty())])
    {
      c := new Node();
      children[i] := c;
      Repr, model := Repr + c.Repr, model.(kids := model.kids[i := Some(c.model)]);
    }

    /**
     * `search`: 0 and the node reached when every step of `w` finds a child,
     * -1 when a step finds none or a byte lies past 'z'.
     */
    method Search(w: bytes) returns (code: int, node: Node?)
      requires Valid() && IsSearchable(w)
      ensures code == 0 || code == -1
      ensures code == 0 <==> Find(model, w).Some?
      ensures code == 0 ==> node != null && node in Repr && node.Valid() && node.model == Find(model, w).value
      decreases |w|
    {
      if |w| == 0 {
        return 0, this;
      }
      if CHARS <= Slot(w[0]) {
        return -1, null;
      }
      var c := children[Slot(w[0])];
      if c == null {
        return -1, null;
      }
      code, node := c.Search(w[1..]);
    }

    /**
     * `printTrie`: with the node's word in `str[..len]`, print it if the node is
     * a leaf, then each child's words in slot order, writing the child's letter
     * at `str[len]`.  `out` is the printed lines.
     */
    method PrintTrie(str: array<uint8>, len: nat) returns (out: seq<bytes>)
      requires Valid() && str !in Repr && len + Depth(model) <= str.Length
      modifies str
      ensures str[..len] == old(str[..len])
      ensures out == Printed(Listing(model, old(str[..len])))
      decreases Repr, 1
    {
      ghost var p := str[..len];
      out := if isLeaf then [CString(str[..len])] else [];
      for i := 0 to CHARS
        invariant str[..len] == p
        invariant out == Printed(LeafLine(model, p) + KidsListing(model, i, p))
      {
        var sub := PrintChild(str, len, i);
        PrintedAppend(LeafLine(model, p) + KidsListing(model, i, p), KidListing(model, i, p));
        assert LeafLine(model, p) + KidsListing(model, i + 1, p) ==
          (LeafLine(model, p) + KidsListing(model, i, p)) + KidListing(model, i, p);
        out := out + sub;
      }
    }

    /** One round of printTrie's loop: the lines of the child in slot `i`, if it is not NULL. */
    method PrintChild(str: array<uint8>, len: nat, i: nat) returns (sub: seq<bytes>)
      requires Valid() && str !in Repr && len + Depth(model) <= str.Length && i < CHARS
      modifies str
      ensures str[..len] == old(str[..len])
      ensures sub == Printed(KidListing(model, i, old(str[..len])))
      decreases Repr, 0
    {
      var c := children[i];
      if c == null {
        return [];
      }
      ghost var p := str[..len];
      KidsDepthBound(model, CHARS, i);
      str[len] := Letter(i);
      assert str[..len + 1] == p + [Letter(i)];
      sub := c.PrintTrie(str, len + 1);
      assert str[..len] == str[..len + 1][..len];
    }
  }
}
