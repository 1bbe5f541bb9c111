/**
  The character prefix tree of day1/src/lib.rs.

  A `Node` carries its letter, its children in insertion order and an
  optional terminal value. The root carries the sentinel letter '*'. The tree
  is built once from (word, value) pairs and is then queried one character at
  a time (`Descend`) or with a whole word (`Find`).
*/
module Trie {
  import opened Wrappers

  /** The program's `u8`. */
  type u8 = x: int | 0 <= x < 256

  /** The letter of a root node. */
  const RootLetter: char := '*'

  datatype Node = Node(letter: char, children: seq<Node>, value: Option<u8>)

  /** The outcome of a lookup; `Partial` carries the subtree reached. */
  datatype FindResult = Complete(v: u8) | Partial(node: Node) | NoMatch

  /** No two children of any node in the tree share a letter. */
  ghost predicate WellFormed(n: Node)
    decreases n
  {
    && (forall i, j :: 0 <= i < j < |n.children| ==> n.children[i].letter != n.children[j].letter)
    && (forall i :: 0 <= i < |n.children| ==> WellFormed(n.children[i]))
  }

  /** `Node::default()`: an empty root. */
  function Default(): (r: Node)
    ensures IsRoot(r) && WellFormed(r)
    ensures Find(r, []) == Partial(r)
    ensures forall w :: w != [] ==> Find(r, w) == NoMatch
  {
    Node(RootLetter, [], None)
  }

  /** `Node::from(c)`: a leaf labelled `c` without a value. */
  function FromChar(c: char): (r: Node)
    ensures r.letter == c && WellFormed(r)
    ensures IsRoot(r) <==> c == RootLetter
    ensures Find(r, []) == Partial(r)
    ensures forall w :: w != [] ==> Find(r, w) == NoMatch
  {
    Node(c, [], None)
  }

  predicate IsRoot(n: Node)
  {
    n.letter == RootLetter
  }

  /** `iter().find(|node| node.char == c)`: the index of the FIRST child labelled `c`. */
  function FindChild(nodes: seq<Node>, c: char): (r: Option<nat>)
    ensures r.Some? ==> r.value < |nodes| && nodes[r.value].letter == c
    ensures r.Some? ==> forall j :: 0 <= j < r.value ==> nodes[j].letter != c
    ensures r.None? <==> forall j :: 0 <= j < |nodes| ==> nodes[j].letter != c
  {
    if nodes == [] then None
    else if nodes[0].letter == c then Some(0)
    else match FindChild(nodes[1..], c)
      case Some(i) => Some(i + 1)
      case None => None
  }

  /**
    `insert`: walk `w` from `n`, reusing the first child with the next letter or
    appending a new one, and set the value of the node where `w` ends.
  */
  function Insert(n: Node, w: seq<char>, v: u8): (r: Node)
    decreases |w|
    ensures r.letter == n.letter
    ensures Find(r, w) == Complete(v)
  {
    if w == [] then n.(value := Some(v))
    else match FindChild(n.children, w[0])
      case Some(i) =>
        var children := n.children[i := Insert(n.children[i], w[1..], v)];
        SameLabelsSameChild(n.children, children, w[0]);
        n.(children := children)
      case None =>
        var child := Insert(FromChar(w[0]), w[1..], v);
        AppendedChildFound(n.children, child, w[0]);
        n.(children := n.children + [child])
  }

  /** The tree `new_tree` builds: the words inserted in order into a default root. */
  function Build(words: seq<(seq<char>, u8)>): (r: Node)
    ensures IsRoot(r)
  {
    if words == [] then Default()
    else
      var last := words[|words| - 1];
      Insert(Build(words[..|words| - 1]), last.0, last.1)
  }

  /** `new_tree`: insert every pair into a fresh root, in order. */
  method NewTree(words: seq<(seq<char>, u8)>) returns (root: Node)
    ensures root == Build(words)
    ensures IsRoot(root) && WellFormed(root)
  {
    root := Default();
    var i := 0;
    while i < |words|
      invariant 0 <= i <= |words|
      invariant root == Build(words[..i])
    {
      assert words[..i + 1][..i] == words[..i];
      root := Insert(root, words[i].0, words[i].1);
      i := i + 1;
    }
    assert words[..|words|] == words;
    BuildWellFormed(words);
  }

  /** `decend`: one step from `n` along the child labelled `c`. */
  function Descend(n: Node, c: char): (r: FindResult)
    ensures r.NoMatch? <==> forall j :: 0 <= j < |n.children| ==> n.children[j].letter != c
    ensures r.Partial? ==> r.node in n.children && r.node.letter == c && r.node.value == None
    ensures r.Complete? ==> exists j :: 0 <= j < |n.children| && n.children[j].letter == c && n.children[j].value == Some(r.v)
  {
    match FindChild(n.children, c)
    case Some(i) =>
      (match n.children[i].value
       case Some(v) => Complete(v)
       case None => Partial(n.children[i]))
    case None => NoMatch
  }

  /**
    `find`: follow `w` from `n`; `Complete` or `Partial` is decided by the node
    where `w` ends, `NoMatch` by the first character without a child.
  */
  function Find(n: Node, w: seq<char>): (r: FindResult)
    decreases |w|
    ensures r.Partial? ==> r.node.value == None
    ensures r.Partial? && w != [] ==> r.node.letter == w[|w| - 1]
  {
    if w == [] then
      match n.value
      case Some(v) => Complete(v)
      case None => Partial(n)
    else match FindChild(n.children, w[0])
      case Some(i) => Find(n.children[i], w[1..])
      case None => NoMatch
  }

  /** The terminal value a lookup reports, if any. */
  function ValueOf(r: FindResult): Option<u8>
  {
    if r.Complete? then Some(r.v) else None
  }

  // ---------------------------------------------------------------------------
  // Sibling letters stay unique

  /** `insert` reuses a child with the letter before it appends a new one. */
  lemma {:induction false} InsertKeepsWellFormed(n: Node, w: seq<char>, v: u8)
    requires WellFormed(n)
    ensures WellFormed(Insert(n, w, v))
    decreases |w|
  {
    if w != [] {
      match FindChild(n.children, w[0])
      case Some(i) =>
        InsertKeepsWellFormed(n.children[i], w[1..], v);
      case None =>
        InsertKeepsWellFormed(FromChar(w[0]), w[1..], v);
    }
  }

  lemma {:induction false} BuildWellFormed(words: seq<(seq<char>, u8)>)
    ensures WellFormed(Build(words))
    decreases |words|
  {
    if words != [] {
      var last := words[|words| - 1];
      BuildWellFormed(words[..|words| - 1]);
      InsertKeepsWellFormed(Build(words[..|words| - 1]), last.0, last.1);
    }
  }

  // ---------------------------------------------------------------------------
  // Lookups after one insertion

  /** Inserting `w` changes no other word's terminal value. */
  lemma {:induction false} InsertKeepsOtherValues(n: Node, w: seq<char>, v: u8, p: seq<char>)
    requires p != w
    ensures ValueOf(Find(Insert(n, w, v), p)) == ValueOf(Find(n, p))
    decreases |p|
  {
    if p == [] {
    } else if w == [] {
      assert Insert(n, w, v).children == n.children;
    } else {
      var r := Insert(n, w, v);
      match FindChild(n.children, w[0])
      case Some(i) =>
        assert r.children == n.children[i := Insert(n.children[i], w[1..], v)];
        SameLabelsSameChild(n.children, r.children, p[0]);
        if p[0] == w[0] {
          InsertKeepsOtherValues(n.children[i], w[1..], v, p[1..]);
        }
      case None =>
        var child := Insert(FromChar(w[0]), w[1..], v);
        assert r.children == n.children + [child];
        if p[0] == w[0] {
          assert FindChild(r.children, p[0]) == Some(|n.children|);
          assert ValueOf(Find(FromChar(w[0]), p[1..])) == None;
          InsertKeepsOtherValues(FromChar(w[0]), w[1..], v, p[1..]);
        } else {
          AppendKeepsChild(n.children, child, p[0]);
        }
    }
  }

  /** After inserting `w`, `p` leads nowhere exactly when it led nowhere before and is not a prefix of `w`. */
  lemma {:induction false} InsertNoMatch(n: Node, w: seq<char>, v: u8, p: seq<char>)
    ensures Find(Insert(n, w, v), p).NoMatch? <==> Find(n, p).NoMatch? && !(p <= w)
    decreases |p|
  {
    if p == [] {
    } else if w == [] {
      assert Insert(n, w, v).children == n.children;
    } else {
      var r := Insert(n, w, v);
      match FindChild(n.children, w[0])
      case Some(i) =>
        SameLabelsSameChild(n.children, r.children, p[0]);
        if p[0] == w[0] {
          InsertNoMatch(n.children[i], w[1..], v, p[1..]);
          PrefixStep(p, w);
        }
      case None =>
        var child := Insert(FromChar(w[0]), w[1..], v);
        assert r.children == n.children + [child];
        if p[0] == w[0] {
          assert FindChild(r.children, p[0]) == Some(|n.children|);
          InsertNoMatch(FromChar(w[0]), w[1..], v, p[1..]);
          PrefixStep(p, w);
        } else {
          AppendKeepsChild(n.children, child, p[0]);
        }
    }
  }

  /** Two child lists with the same labels send every character to the same index. */
  lemma SameLabelsSameChild(a: seq<Node>, b: seq<Node>, c: char)
    requires |a| == |b|
    requires forall j :: 0 <= j < |a| ==> a[j].letter == b[j].letter
    ensures FindChild(a, c) == FindChild(b, c)
  {
  }

  /** Appending a child with another letter does not change where `c` leads. */
  lemma AppendKeepsChild(a: seq<Node>, x: Node, c: char)
    requires x.letter != c
    ensures FindChild(a + [x], c) == FindChild(a, c)
  {
    var ra, rb := FindChild(a, c), FindChild(a + [x], c);
    assert forall j :: 0 <= j < |a| ==> (a + [x])[j] == a[j];
    if ra.Some? && rb.Some? {
      assert !(ra.value < rb.value) && !(rb.value < ra.value);
    }
  }

  /** A child appended under a letter no sibling has is the one that letter leads to. */
  lemma AppendedChildFound(a: seq<Node>, x: Node, c: char)
    requires FindChild(a, c).None? && x.letter == c
    ensures FindChild(a + [x], c) == Some(|a|)
  {
    var r := FindChild(a + [x], c);
    assert (a + [x])[|a|] == x;
    assert forall j :: 0 <= j < |a| ==> (a + [x])[j] == a[j];
  }

  lemma PrefixStep(p: seq<char>, w: seq<char>)
    requires p != [] && w != [] && p[0] == w[0]
    ensures p <= w <==> p[1..] <= w[1..]
  {
  }

  // ---------------------------------------------------------------------------
  // Lookups in the tree `new_tree` builds

  /** Whether `p` is a prefix of one of the words. */
  ghost predicate PrefixOfSome(words: seq<(seq<char>, u8)>, p: seq<char>)
  {
    exists j :: 0 <= j < |words| && p <= words[j].0
  }

  lemma PrefixOfSomeSplit(words: seq<(seq<char>, u8)>, p: seq<char>)
    requires words != []
    ensures PrefixOfSome(words, p) <==>
      PrefixOfSome(words[..|words| - 1], p) || p <= words[|words| - 1].0
  {
  }

  /** Every inserted word is found, with the value of its LAST insertion. */
  lemma {:induction false} BuildFindsWord(words: seq<(seq<char>, u8)>, i: nat)
    requires i < |words|
    requires forall j :: i < j < |words| ==> words[j].0 != words[i].0
    ensures Find(Build(words), words[i].0) == Complete(words[i].1)
    decreases |words|
  {
    var k := |words| - 1;
    var init := words[..k];
    if i < k {
      BuildFindsWord(init, i);
      InsertKeepsOtherValues(Build(init), words[k].0, words[k].1, words[i].0);
    }
  }

  /** A sequence that was never inserted is not reported `Complete`. */
  lemma {:induction false} BuildOnlyFindsWords(words: seq<(seq<char>, u8)>, p: seq<char>)
    requires forall j :: 0 <= j < |words| ==> words[j].0 != p
    ensures !Find(Build(words), p).Complete?
    decreases |words|
  {
    if words != [] {
      var k := |words| - 1;
      var init := words[..k];
      BuildOnlyFindsWords(init, p);
      InsertKeepsOtherValues(Build(init), words[k].0, words[k].1, p);
    }
  }

  /** `find(p)` is `NoMatch` exactly when `p` is non-empty and a prefix of no word. */
  lemma {:induction false} BuildNoMatch(words: seq<(seq<char>, u8)>, p: seq<char>)
    ensures Find(Build(words), p).NoMatch? <==> p != [] && !PrefixOfSome(words, p)
    decreases |words|
  {
    if words != [] {
      var k := |words| - 1;
      var init := words[..k];
      BuildNoMatch(init, p);
      InsertNoMatch(Build(init), words[k].0, words[k].1, p);
      PrefixOfSomeSplit(words, p);
    }
  }

  /**
    `find(p)` is `Partial` exactly when `p` is not an inserted word but is the
    empty sequence or a prefix of one.
  */
  lemma BuildPartial(words: seq<(seq<char>, u8)>, p: seq<char>)
    ensures Find(Build(words), p).Partial? <==>
      (forall j :: 0 <= j < |words| ==> words[j].0 != p) && (p == [] || PrefixOfSome(words, p))
  {
    BuildNoMatch(words, p);
    if forall j :: 0 <= j < |words| ==> words[j].0 != p {
      BuildOnlyFindsWords(words, p);
    } else {
      var j :| 0 <= j < |words| && words[j].0 == p;
      var last := LastOccurrence(words, j);
      BuildFindsWord(words, last);
    }
  }

  /** The index of the last pair whose word is that of pair `i`. */
  lemma LastOccurrence(words: seq<(seq<char>, u8)>, i: nat) returns (k: nat)
    requires i < |words|
    ensures i <= k < |words| && words[k].0 == words[i].0
    ensures forall j :: k < j < |words| ==> words[j].0 != words[i].0
    decreases |words| - i
  {
    if exists j :: i < j < |words| && words[j].0 == words[i].0 {
      var j :| i < j < |words| && words[j].0 == words[i].0;
      k := LastOccurrence(words, j);
    } else {
      k := i;
    }
  }

  /** With no '*' in any word, a node reached by a non-empty prefix is never taken for the root. */
  lemma BuildPartialNotRoot(words: seq<(seq<char>, u8)>, p: seq<char>)
    requires forall j :: 0 <= j < |words| ==> RootLetter !in words[j].0
    requires p != [] && Find(Build(words), p).Partial?
    ensures !IsRoot(Find(Build(words), p).node)
  {
    BuildNoMatch(words, p);
    var j :| 0 <= j < |words| && p <= words[j].0;
    assert p[|p| - 1] == words[j].0[|p| - 1];
  }

  // ---------------------------------------------------------------------------
  // Stepping with `decend`

  /** Once `find` reports `NoMatch`, no extension of the word matches either. */
  lemma {:induction false} NoMatchIsFinal(n: Node, p: seq<char>, q: seq<char>)
    requires Find(n, p).NoMatch?
    ensures Find(n, p + q).NoMatch?
    decreases |p|
  {
    assert p != [];
    assert (p + q)[0] == p[0] && (p + q)[1..] == p[1..] + q;
    match FindChild(n.children, p[0])
    case Some(i) => NoMatchIsFinal(n.children[i], p[1..], q);
    case None =>
  }

  /** Looking up `p + q` is looking up `q` in the subtree `p` reaches. */
  lemma {:induction false} FindThroughPartial(n: Node, p: seq<char>, q: seq<char>)
    requires Find(n, p).Partial?
    ensures Find(n, p + q) == Find(Find(n, p).node, q)
    decreases |p|
  {
    if p == [] {
      assert p + q == q;
    } else {
      assert (p + q)[0] == p[0] && (p + q)[1..] == p[1..] + q;
      match FindChild(n.children, p[0])
      case Some(i) => FindThroughPartial(n.children[i], p[1..], q);
      case None =>
    }
  }

  /** `decend(c)` is `find` of the one-character word `c`. */
  lemma DescendIsFind(n: Node, c: char)
    ensures Descend(n, c) == Find(n, [c])
  {
  }

  /** Descending from the node a `Partial` lookup reached agrees with looking up one more character. */
  lemma DescendExtendsFind(n: Node, p: seq<char>, c: char)
    requires Find(n, p).Partial?
    ensures Find(n, p + [c]) == Descend(Find(n, p).node, c)
  {
    FindThroughPartial(n, p, [c]);
    DescendIsFind(Find(n, p).node, c);
  }
}
