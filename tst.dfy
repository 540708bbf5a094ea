/**
 * The ternary search trie of LZW.py, a symbol table keyed by non-empty
 * strings that LZW would use for its dictionary of phrases, and the named
 * constants of the (unimplemented) LZW codec.
 */
module Tst {
  import opened Common
  import opened Bits

  // ---------------------------------------------------------------------
  // Constants of the LZW codec

  /** Bits per input character. */
  const CharBitLen: nat := 8
  /** Bits per output code. */
  const CodeBitLen: nat := 12
  /** Number of distinct input characters. */
  const CharSetLen: nat := 256
  /** Number of distinct codes. */
  const CodeSetLen: nat := Pow2(CodeBitLen)

  lemma CodeSetSizes()
    ensures CharSetLen == Pow2(CharBitLen)
    ensures CodeSetLen == 4096
  {
    Pow2Byte();
    assert Pow2(12) == 16 * Pow2(8);
  }

  // ---------------------------------------------------------------------
  // Nodes

  /**
   * A trie node: its character, the value of the key that ends here (if
   * any), and the subtries of smaller characters, of the next character and
   * of greater characters. `Nil` is the missing node.
   */
  datatype Tree<V> = Nil | Node(c: char, val: Option<V>, left: Tree<V>, mid: Tree<V>, right: Tree<V>)

  /** The value held by a node, none for a missing one. */
  function NodeVal<V>(x: Tree<V>): Option<V>
  {
    if x.Nil? then None else x.val
  }

  /** The node reached by searching `key[d..]` from `x`: `_get`. */
  function GetNode<V>(x: Tree<V>, key: string, d: nat): (r: Tree<V>)
    requires d < |key|
    ensures r.Node? ==> r.c == key[|key| - 1]
    decreases x
  {
    match x
    case Nil => Nil
    case Node(c, _, l, m, r) =>
      if key[d] < c then GetNode(l, key, d)
      else if key[d] > c then GetNode(r, key, d)
      else if d < |key| - 1 then GetNode(m, key, d + 1)
      else x
  }

  /** The value stored under a non-empty key in the trie rooted at `x`. */
  function Lookup<V>(x: Tree<V>, key: string): Option<V>
    requires key != []
  {
    NodeVal(GetNode(x, key, 0))
  }

  /**
   * The trie after storing `val` under `key`, searching from depth `d`:
   * `_put`. A missing node on the path is created with the key's character
   * and no value. Nodes are never shared, so rebuilding the search path is
   * the same as updating its nodes in place.
   */
  function PutNode<V>(x: Tree<V>, key: string, val: Option<V>, d: nat): (r: Tree<V>)
    requires d < |key|
    ensures r.Node?
    decreases |key| - d, x
  {
    var x0 := if x.Nil? then Node(key[d], None, Nil, Nil, Nil) else x;
    if key[d] < x0.c then x0.(left := PutNode(x0.left, key, val, d))
    else if key[d] > x0.c then x0.(right := PutNode(x0.right, key, val, d))
    else if d < |key| - 1 then x0.(mid := PutNode(x0.mid, key, val, d + 1))
    else x0.(val := val)
  }

  /**
   * After a put, searching a key with the same remaining characters finds
   * the new value, and every other search finds what it found before.
   */
  lemma {:induction false} GetPutNode<V>(x: Tree<V>, key: string, val: Option<V>, d: nat, k: string)
    requires d < |key| && d < |k|
    ensures NodeVal(GetNode(PutNode(x, key, val, d), k, d))
         == if k[d..] == key[d..] then val else NodeVal(GetNode(x, k, d))
    decreases |key| - d, x
  {
    var x0 := if x.Nil? then Node(key[d], None, Nil, Nil, Nil) else x;
    assert NodeVal(GetNode(x0, k, d)) == NodeVal(GetNode(x, k, d));
    assert k[d..] == [k[d]] + k[d + 1..] && key[d..] == [key[d]] + key[d + 1..];
    if key[d] < x0.c {
      if k[d] < x0.c {
        GetPutNode(x0.left, key, val, d, k);
      }
    } else if key[d] > x0.c {
      if k[d] > x0.c {
        GetPutNode(x0.right, key, val, d, k);
      }
    } else if d < |key| - 1 {
      if k[d] == x0.c && d < |k| - 1 {
        GetPutNode(x0.mid, key, val, d + 1, k);
      }
    }
  }

  /** `get` after `put`: the key put finds the new value, every other key its old one. */
  lemma LookupPut<V>(x: Tree<V>, key: string, val: Option<V>, k: string)
    requires key != [] && k != []
    ensures Lookup(PutNode(x, key, val, 0), k) == if k == key then val else Lookup(x, k)
  {
    GetPutNode(x, key, val, 0, k);
    assert k[0..] == k && key[0..] == key;
  }

  /** A second put of the same key overwrites the first. */
  lemma PutOverwrites<V>(x: Tree<V>, key: string, v: Option<V>, w: Option<V>, k: string)
    requires key != [] && k != []
    ensures Lookup(PutNode(PutNode(x, key, v, 0), key, w, 0), k) == Lookup(PutNode(x, key, w, 0), k)
  {
    LookupPut(PutNode(x, key, v, 0), key, w, k);
    LookupPut(x, key, v, k);
    LookupPut(x, key, w, k);
  }

  /** A key maps to the stored value, its missing key to nothing. */
  function Find<V>(m: map<string, V>, key: string): Option<V>
  {
    if key in m then Some(m[key]) else None
  }

  /** The map after `put(key, val)`: a `None` value removes the key. */
  function Store<V>(m: map<string, V>, key: string, val: Option<V>): map<string, V>
  {
    if val.Some? then m[key := val.value] else m - {key}
  }

  /** Storing under `key` changes what is found under `key` and nothing else. */
  lemma FindStore<V>(m: map<string, V>, key: string, val: Option<V>, k: string)
    ensures Find(Store(m, key, val), k) == if k == key then val else Find(m, k)
  {
  }

  // ---------------------------------------------------------------------
  // Ordering

  /** The characters of a node and of its left and right descendants. */
  ghost function Level<V>(x: Tree<V>): set<char>
  {
    match x
    case Nil => {}
    case Node(c, _, l, _, r) => {c} + Level(l) + Level(r)
  }

  /**
   * Every character at a node's level in its left subtrie is smaller than
   * the node's character and every one in its right subtrie is greater.
   */
  ghost predicate Ordered<V>(x: Tree<V>)
  {
    match x
    case Nil => true
    case Node(c, _, l, m, r) =>
      (forall a :: a in Level(l) ==> a < c) && (forall a :: a in Level(r) ==> c < a)
      && Ordered(l) && Ordered(m) && Ordered(r)
  }

  /** A put adds at most the key's character to the level it starts at. */
  lemma {:induction false} PutLevel<V>(x: Tree<V>, key: string, val: Option<V>, d: nat)
    requires d < |key|
    ensures Level(PutNode(x, key, val, d)) == Level(x) + {key[d]}
    decreases |key| - d, x
  {
    var x0 := if x.Nil? then Node(key[d], None, Nil, Nil, Nil) else x;
    if key[d] < x0.c {
      PutLevel(x0.left, key, val, d);
    } else if key[d] > x0.c {
      PutLevel(x0.right, key, val, d);
    }
  }

  /** `_put` keeps the trie ordered. */
  lemma {:induction false} PutOrdered<V>(x: Tree<V>, key: string, val: Option<V>, d: nat)
    requires d < |key| && Ordered(x)
    ensures Ordered(PutNode(x, key, val, d))
    decreases |key| - d, x
  {
    var x0 := if x.Nil? then Node(key[d], None, Nil, Nil, Nil) else x;
    if key[d] < x0.c {
      PutOrdered(x0.left, key, val, d);
      PutLevel(x0.left, key, val, d);
    } else if key[d] > x0.c {
      PutOrdered(x0.right, key, val, d);
      PutLevel(x0.right, key, val, d);
    } else if d < |key| - 1 {
      PutOrdered(x0.mid, key, val, d + 1);
    }
  }

  /** The search step of `longest_prefix_of` at one node, for the prefix `q[..j]`. */
  lemma Descend<V>(x: Tree<V>, q: string, i: nat, j: nat)
    requires x.Node? && i < j <= |q|
    ensures GetNode(x, q[..j], i)
         == if q[i] < x.c then GetNode(x.left, q[..j], i)
            else if q[i] > x.c then GetNode(x.right, q[..j], i)
            else if i < j - 1 then GetNode(x.mid, q[..j], i + 1)
            else x
  {
    assert q[..j][i] == q[i];
  }

  // ---------------------------------------------------------------------
  // The symbol table

  class TST<V> {
    var root: Tree<V>
    /** The stored keys and their values. */
    ghost var contents: map<string, V>

    ghost predicate Valid()
      reads this
    {
      Ordered(root) && [] !in contents
      && forall k: string :: k != [] ==> Lookup(root, k) == Find(contents, k)
    }

    constructor()
      ensures Valid() && root == Nil && contents == map[]
    {
      root := Nil;
      contents := map[];
    }

    /** `get`: the empty key is an error, any other finds its stored value. */
    function Get(key: string): (r: Result<Option<V>>)
      reads this
      ensures r.Err? <==> key == []
      ensures Valid() && key != [] ==> r == Ok(Find(contents, key))
    {
      if key == [] then Err("key must non-empty string") else Ok(NodeVal(GetNode(root, key, 0)))
    }

    /** `put`: the empty key is an error and changes nothing. */
    method Put(key: string, val: Option<V>) returns (r: Result<()>)
      requires Valid()
      modifies this
      ensures Valid()
      ensures r.Err? <==> key == []
      ensures key == [] ==> root == old(root) && contents == old(contents)
      ensures key != [] ==> root == PutNode(old(root), key, val, 0)
      ensures key != [] ==> contents == Store(old(contents), key, val)
    {
      if key == [] {
        return Err("key must non-empty string");
      }
      PutOrdered(root, key, val, 0);
      ghost var before, held := root, contents;
      root := PutNode(root, key, val, 0);
      contents := Store(contents, key, val);
      forall k: string | k != []
        ensures Lookup(root, k) == Find(contents, k)
      {
        LookupPut(before, key, val, k);
        FindStore(held, key, val, k);
        assert Lookup(before, k) == Find(held, k);
      }
      r := Ok(());
    }

    /**
     * `longest_prefix_of`: none for the empty query; otherwise the longest
     * prefix of `query` with a stored value, or the empty string if there
     * is none.
     */
    method LongestPrefixOf(query: string) returns (r: Option<string>)
      ensures r.None? <==> query == []
      ensures r.Some? ==> |r.value| <= |query| && r.value == query[..|r.value|]
      ensures r.Some? && r.value != [] ==> Lookup(root, r.value).Some?
      ensures r.Some? ==> forall j :: |r.value| < j <= |query| ==> Lookup(root, query[..j]).None?
      ensures Valid() && r.Some? ==>
        (r.value == [] || r.value in contents)
        && forall j :: |r.value| < j <= |query| ==> query[..j] !in contents
    {
      if query == [] {
        return None;
      }
      var i, length := 0, 0;
      var x := root;
      while x.Node? && i < |query|
        invariant 0 <= length <= i <= |query|
        invariant length == 0 || Lookup(root, query[..length]).Some?
        invariant forall j :: length < j <= i ==> Lookup(root, query[..j]).None?
        invariant forall j :: i < j <= |query| ==> GetNode(x, query[..j], i) == GetNode(root, query[..j], 0)
        decreases |query| - i, x
      {
        forall j | i < j <= |query| {
          Descend(x, query, i, j);
        }
        var c := query[i];
        if c < x.c {
          x := x.left;
        } else if c > x.c {
          x := x.right;
        } else {
          i := i + 1;
          if x.val.Some? {
            length := i;
          }
          x := x.mid;
        }
      }
      r := Some(query[..length]);
      assert query[..length][..length] == query[..length];
      assert forall j :: length < j <= |query| ==> Lookup(root, query[..j]).None?;
      assert Valid() ==> forall j :: length < j <= |query| ==> Find(contents, query[..j]).None?;
    }
  }

  /**
   * The demonstration at the end of LZW.py: the words of "she sells sea
   * shells by the sea shore" stored with their positions; the longest
   * stored prefix of "shell" is "she".
   */
  method Demo() returns (r: Option<string>)
    ensures r == Some("she")
  {
    var st := new TST<int>();
    var words := ["she", "sells", "sea", "shells", "by", "the", "sea", "shore"];
    var i := 0;
    while i < |words|
      invariant 0 <= i <= |words| && st.Valid()
      invariant forall w :: w in st.contents ==> w in words[..i]
      invariant i > 0 ==> "she" in st.contents
    {
      var _ := st.Put(words[i], Some(i));
      i := i + 1;
    }
    r := st.LongestPrefixOf("shell");
    assert "shell"[..3] == "she";
    assert "shell"[..4] == "shel" && "shell"[..5] == "shell";
    assert "shel" !in words && "shell" !in words;
  }
}
