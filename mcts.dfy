/**
 * The search-tree node of the Monte Carlo Tree Search (src/ai/mcts.rs):
 * visit and value statistics, and children materialised lazily, one at a
 * time, in a map from each legal move to its (possibly absent) child.
 */
module Mcts {
  import opened Options
  import opened Actions

  /** Rust's `Option` used as an iterator: no item, or exactly one. */
  function OptionItems<T>(o: Option<T>): (s: seq<T>)
    ensures |s| == (if o.Some? then 1 else 0)
    ensures o.Some? ==> s[0] == o.value
  {
    match o
    case None => []
    case Some(v) => [v]
  }

  /** `Iterator::zip`: pairs the items up, stopping at the end of the shorter side. */
  function Zip<A, B>(xs: seq<A>, ys: seq<B>): (r: seq<(A, B)>)
    ensures |r| == if |xs| <= |ys| then |xs| else |ys|
    ensures forall i :: 0 <= i < |r| ==> r[i] == (xs[i], ys[i])
  {
    if xs == [] || ys == [] then [] else [(xs[0], ys[0])] + Zip(xs[1..], ys[1..])
  }

  /** `collect` into a `HashMap`: a later pair overwrites an earlier one with the same key. */
  function Collect<K, V>(pairs: seq<(K, V)>): (m: map<K, V>)
    ensures m.Keys == set p | p in pairs :: p.0
    ensures forall k :: k in m ==> (k, m[k]) in pairs
  {
    if pairs == [] then map[]
    else
      var last := pairs[|pairs| - 1];
      Collect(pairs[..|pairs| - 1])[last.0 := last.1]
  }

  /** The value `collect` keeps for a key is that of the last pair with this key. */
  lemma {:induction false} CollectLastWins<K, V>(pairs: seq<(K, V)>, i: nat)
    requires i < |pairs|
    requires forall j :: i < j < |pairs| ==> pairs[j].0 != pairs[i].0
    ensures pairs[i].0 in Collect(pairs) && Collect(pairs)[pairs[i].0] == pairs[i].1
  {
    if i < |pairs| - 1 {
      var init := pairs[..|pairs| - 1];
      assert init[i] == pairs[i];
      CollectLastWins(init, i);
    }
  }

  /**
   * `action_hash_map`: the legal moves (the result of `possible_actions`,
   * which is not part of this model, so it is a parameter) zipped with
   * `None` and collected.
   */
  function ActionHashMap(actions: seq<Action>): (m: map<Action, Option<Node>>)
    ensures forall a :: a in m ==> a in actions && m[a].None?
  {
    Collect(Zip(actions, OptionItems<Option<Node>>(None)))
  }

  /**
   * Zipping with `None` zips with an empty iterator, so the map built by
   * `action_hash_map` is empty whatever the legal moves are.
   */
  lemma {:induction false} ActionHashMapIsEmpty(actions: seq<Action>)
    ensures ActionHashMap(actions) == map[]
  {
    var pairs := Zip(actions, OptionItems<Option<Node>>(None));
    assert pairs == [];
  }

  /** The moves whose child has not been created yet. */
  ghost function Unexpanded(children: map<Action, Option<Node>>): set<Action>
  {
    set k | k in children && children[k].None?
  }

  /** `fully_expanded`, as a property of the children field. */
  predicate IsFullyExpanded(children: Option<map<Action, Option<Node>>>)
  {
    children.Some? && forall k :: k in children.value ==> children.value[k].Some?
  }

  /** The children map `expand` works on: the existing one, else a fresh `action_hash_map`. */
  function Initialised(children: Option<map<Action, Option<Node>>>, actions: seq<Action>)
    : map<Action, Option<Node>>
  {
    if children.None? then ActionHashMap(actions) else children.value
  }

  /** Some move still lacks its child. */
  predicate HasUnexpanded(children: map<Action, Option<Node>>)
  {
    exists k :: k in children && children[k].None?
  }

  /**
   * One expansion step from `before` to `after` at `key`: the same moves,
   * `key` goes from no child to a child, and every other entry is untouched.
   */
  ghost predicate ExpandsAt(before: map<Action, Option<Node>>, after: map<Action, Option<Node>>, key: Action)
  {
    && key in before && before[key].None?
    && after.Keys == before.Keys
    && after[key].Some?
    && forall k :: k in before && k != key ==> after[k] == before[k]
  }

  /** A node is fully expanded exactly when its map exists and no move is unexpanded. */
  lemma FullyExpandedIffNoneUnexpanded(children: Option<map<Action, Option<Node>>>)
    ensures IsFullyExpanded(children) <==> children.Some? && Unexpanded(children.value) == {}
  {
    if children.Some? && !IsFullyExpanded(children) {
      var k :| k in children.value && children.value[k].None?;
      assert k in Unexpanded(children.value);
    }
  }

  /**
   * Expansion is monotone: a created child is never removed or replaced, and
   * each step leaves exactly one fewer unexpanded move.
   */
  lemma ExpansionStep(before: map<Action, Option<Node>>, after: map<Action, Option<Node>>, key: Action)
    requires ExpandsAt(before, after, key)
    ensures forall k :: k in before && before[k].Some? ==> after[k] == before[k]
    ensures Unexpanded(after) == Unexpanded(before) - {key}
    ensures |Unexpanded(after)| == |Unexpanded(before)| - 1
  {
    assert key in Unexpanded(before);
    assert Unexpanded(after) == Unexpanded(before) - {key};
  }

  class Node {
    var children: Option<map<Action, Option<Node>>>
    var action: Option<Action>
    var parentVisits: nat
    var visits: nat
    var value: real

    /** `Node::new`: the given children, move and parent visit count, with no statistics yet. */
    constructor (children: Option<map<Action, Option<Node>>>, action: Option<Action>, parentVisits: nat)
      ensures this.children == children && this.action == action && this.parentVisits == parentVisits
      ensures visits == 0 && value == 0.0
    {
      this.children := children;
      this.action := action;
      this.parentVisits := parentVisits;
      visits := 0;
      value := 0.0;
    }

    /**
     * `weight`: the average reward per visit, 0 for an unvisited node; it is
     * a win rate in [0, 1] whenever the accumulated value lies in [0, visits].
     */
    function Weight(): (w: real)
      reads this
      ensures visits == 0 ==> w == 0.0
      ensures visits > 0 ==> w * (visits as real) == value
      ensures 0.0 <= value <= visits as real ==> 0.0 <= w <= 1.0
    {
      if visits == 0 then 0.0 else value / (visits as real)
    }

    /** `fully_expanded`: scans the children for one that is still missing. */
    method FullyExpanded() returns (b: bool)
      ensures b == IsFullyExpanded(children)
    {
      match children
      case None =>
        return false;
      case Some(m) =>
        var rest := m.Keys;
        while rest != {}
          invariant rest <= m.Keys
          invariant forall k :: k in m && k !in rest ==> m[k].Some?
          decreases rest
        {
          var k :| k in rest;
          if m[k].None? {
            return false;
          }
          rest := rest - {k};
        }
        return true;
    }

    /**
     * `expand`: materialises the children map if it is missing, finds a move
     * without a child (the source panics when there is none), gives it a
     * fresh child whose parent visit count is this node's visits, and
     * returns that move.
     */
    method Expand(actions: seq<Action>) returns (key: Action)
      requires HasUnexpanded(Initialised(children, actions))
      modifies this
      ensures children.Some? && ExpandsAt(Initialised(old(children), actions), children.value, key)
      ensures |Unexpanded(children.value)| == |Unexpanded(Initialised(old(children), actions))| - 1
      ensures var child := children.value[key].value;
        && fresh(child)
        && child.children == None && child.action == Some(key) && child.parentVisits == old(visits)
        && child.visits == 0 && child.value == 0.0
      ensures visits == old(visits) && value == old(value)
      ensures action == old(action) && parentVisits == old(parentVisits)
    {
      // a missing map is replaced by `action_hash_map`; an existing one is kept
      var m := Initialised(children, actions);
      children := Some(m);
      var unexpanded: Option<Action> := None;
      var rest := m.Keys;
      while rest != {}
        invariant rest <= m.Keys
        invariant unexpanded.Some? ==> unexpanded.value in m && m[unexpanded.value].None?
        invariant unexpanded.None? ==> forall k :: k in m && k !in rest ==> m[k].Some?
        decreases rest
      {
        var k :| k in rest;
        if m[k].None? {
          unexpanded := Some(k);
        }
        rest := rest - {k};
      }
      if unexpanded.None? {
        assert false;  // the source panics here
      }
      key := unexpanded.value;
      var child := new Node(None, Some(key), visits);
      children := Some(m[key := Some(child)]);
      ExpansionStep(m, children.value, key);
    }
  }

  /** `Tree`: owns the root node. */
  class Tree {
    const root: Node

    constructor (root: Node)
      ensures this.root == root
    {
      this.root := root;
    }
  }

  /**
   * `mcts`: builds the root for a new game from `action_hash_map`, where
   * `actions` is the move list of the fresh `GameState`. Since that
   * map is empty, the root is already (vacuously) fully expanded.
   */
  method Mcts(actions: seq<Action>) returns (tree: Tree)
    ensures fresh(tree) && fresh(tree.root)
    ensures tree.root.children == Some(map[]) && IsFullyExpanded(tree.root.children)
    ensures tree.root.action == None && tree.root.parentVisits == 0
    ensures tree.root.visits == 0 && tree.root.value == 0.0
  {
    var root := new Node(Some(ActionHashMap(actions)), None, 0);
    ActionHashMapIsEmpty(actions);
    tree := new Tree(root);
  }
}
