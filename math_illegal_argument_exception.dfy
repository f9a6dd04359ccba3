/**
 * The message-argument handling of the base exception for violated
 * preconditions: its constructor keeps the message pattern and stores the
 * arguments after flattening every nested object array into one flat list.
 */
module MathException {

  /**
   * One message argument, as the flattening sees it.
   * - Null: a null reference (it is not an instance of Object[]).
   * - Leaf: any other object that is not an Object[], identified by its
   *   identity; boxed numbers, strings and primitive arrays such as double[]
   *   are all leaves, because they fail the `instanceof Object[]` test.
   * - Arr: an array of references (Object[], String[], ...), with its
   *   elements in order.
   */
  datatype Arg =
    | Null
    | Leaf(id: int)
    | Arr(items: seq<Arg>)

  /**
   * A message pattern reference: null, or a pattern object known by its
   * identity. The constructor stores it without looking inside it.
   */
  datatype Localizable = NullPattern | Pattern(id: int)

  /** No element of `s` is itself an object array. */
  predicate IsFlat(s: seq<Arg>) {
    forall k :: 0 <= k < |s| ==> !s[k].Arr?
  }

  /**
   * The flattened form of an argument array: its non-array elements in
   * depth-first, left-to-right order, every nested array replaced by the
   * flattened form of its own elements.
   */
  function Flattened(s: seq<Arg>): (r: seq<Arg>)
    ensures IsFlat(r)
  {
    if s == [] then []
    else (match s[0] case Arr(items) => Flattened(items) case _ => [s[0]]) + Flattened(s[1..])
  }

  /**
   * The number of non-array elements of `s` at every nesting depth, counted
   * from the last element backwards.
   */
  function LeafCount(s: seq<Arg>): (n: nat) {
    if s == [] then 0
    else
      var last := s[|s| - 1];
      LeafCount(s[..|s| - 1]) + (match last case Arr(items) => LeafCount(items) case _ => 1)
  }

  /** `x` is a non-array element of `s` or of some array nested in `s`, at any depth. */
  predicate OccursIn(x: Arg, s: seq<Arg>) {
    exists k :: 0 <= k < |s| && (if s[k].Arr? then OccursIn(x, s[k].items) else s[k] == x)
  }

  /** Flattening distributes over concatenation: the loop is a left-to-right append. */
  lemma {:induction false} FlattenedAppend(a: seq<Arg>, b: seq<Arg>)
    ensures Flattened(a + b) == Flattened(a) + Flattened(b)
  {
    if a == [] {
      assert a + b == b;
    } else {
      assert (a + b)[0] == a[0];
      assert (a + b)[1..] == a[1..] + b;
      FlattenedAppend(a[1..], b);
    }
  }

  /**
   * Order is preserved: the contribution of element `i` sits between the
   * contributions of the elements before it and those after it.
   */
  lemma {:induction false} FlattenedSplice(s: seq<Arg>, i: nat)
    requires i < |s|
    ensures Flattened(s) ==
      Flattened(s[..i]) + (if s[i].Arr? then Flattened(s[i].items) else [s[i]]) + Flattened(s[i + 1..])
  {
    var rest := [s[i]] + s[i + 1..];
    assert s == s[..i] + rest;
    FlattenedAppend(s[..i], rest);
    assert rest[0] == s[i] && rest[1..] == s[i + 1..];
  }

  /** The result holds exactly one element per non-array leaf of the input. */
  lemma {:induction false} FlattenedLength(s: seq<Arg>)
    ensures |Flattened(s)| == LeafCount(s)
  {
    if s != [] {
      var n := |s| - 1;
      assert s == s[..n] + [s[n]];
      FlattenedAppend(s[..n], [s[n]]);
      FlattenedLength(s[..n]);
      assert [s[n]][1..] == [];
      if s[n].Arr? {
        FlattenedLength(s[n].items);
      }
    }
  }

  /** An empty nested array contributes nothing. */
  lemma FlattenedEmptyArray(a: seq<Arg>, b: seq<Arg>)
    ensures Flattened(a + [Arr([])] + b) == Flattened(a + b)
  {
    FlattenedAppend(a + [Arr([])], b);
    FlattenedAppend(a, [Arr([])]);
    FlattenedAppend(a, b);
    assert [Arr([])][1..] == [];
  }

  /**
   * A non-array element (null, a primitive array, any other object) is kept
   * as it is, at the position given by the number of leaves before it.
   */
  lemma FlattenedKeepsLeaf(s: seq<Arg>, i: nat)
    requires i < |s| && !s[i].Arr?
    ensures LeafCount(s[..i]) < |Flattened(s)|
    ensures Flattened(s)[LeafCount(s[..i])] == s[i]
  {
    FlattenedSplice(s, i);
    FlattenedLength(s[..i]);
  }

  /** The result holds exactly the leaves reachable in the input, at any depth. */
  lemma {:induction false} FlattenedMembers(x: Arg, s: seq<Arg>)
    ensures x in Flattened(s) <==> OccursIn(x, s)
  {
    if s == [] {
    } else {
      var head := if s[0].Arr? then Flattened(s[0].items) else [s[0]];
      assert Flattened(s) == head + Flattened(s[1..]);
      FlattenedMembers(x, s[1..]);
      if s[0].Arr? {
        FlattenedMembers(x, s[0].items);
      }
      if x in Flattened(s) {
        if x in head {
          assert OccursIn(x, s) by {
            assert 0 < |s| && (if s[0].Arr? then OccursIn(x, s[0].items) else s[0] == x);
          }
        } else {
          assert x in Flattened(s[1..]);
          var k :| 0 <= k < |s[1..]| &&
            (if s[1..][k].Arr? then OccursIn(x, s[1..][k].items) else s[1..][k] == x);
          assert s[1..][k] == s[k + 1];
        }
      }
      if OccursIn(x, s) {
        var k :| 0 <= k < |s| && (if s[k].Arr? then OccursIn(x, s[k].items) else s[k] == x);
        if k > 0 {
          assert s[1..][k - 1] == s[k];
          assert OccursIn(x, s[1..]);
        }
      }
    }
  }

  /** Flattening leaves the input unchanged exactly when it holds no nested array. */
  lemma {:induction false} FlattenedIdentity(s: seq<Arg>)
    ensures Flattened(s) == s <==> IsFlat(s)
  {
    if s != [] && IsFlat(s) {
      assert IsFlat(s[1..]) by {
        forall k | 0 <= k < |s[1..]| ensures !s[1..][k].Arr? {
          assert s[1..][k] == s[k + 1];
        }
      }
      FlattenedIdentity(s[1..]);
      assert !s[0].Arr?;
      assert s == [s[0]] + s[1..];
    }
  }

  /** Flattening an already flattened list changes nothing. */
  lemma FlattenedIdempotent(s: seq<Arg>)
    ensures Flattened(Flattened(s)) == Flattened(s)
  {
    FlattenedIdentity(Flattened(s));
  }

  /** Base class of the exceptions that report a violated precondition. */
  class MathIllegalArgumentException {
    /** The pattern that the message text is later built from, kept as given. */
    const pattern: Localizable
    /** The message arguments after flattening, in a fresh array of their own. */
    const arguments: array<Arg>

    constructor (pattern: Localizable, args: seq<Arg>)
      ensures this.pattern == pattern
      ensures fresh(arguments)
      ensures arguments[..] == Flattened(args)
    {
      this.pattern := pattern;
      var list := Flatten(args);
      arguments := new Arg[|list|](k requires 0 <= k < |list| => list[k]);
    }

    /**
     * Walks the elements from left to right into a new list, appending each
     * leaf as it is and, for each nested array, the result of flattening it
     * by a recursive call.
     */
    static method Flatten(elements: seq<Arg>) returns (list: seq<Arg>)
      ensures list == Flattened(elements)
      decreases elements
    {
      list := [];
      for i := 0 to |elements|
        invariant list == Flattened(elements[..i])
      {
        var o := elements[i];
        if o.Arr? {
          var inner := Flatten(o.items);
          list := list + inner;
        } else {
          list := list + [o];
        }
        assert elements[..i + 1] == elements[..i] + [o];
        FlattenedAppend(elements[..i], [o]);
        assert [o][1..] == [];
      }
      assert elements[..|elements|] == elements;
    }
  }
}
