/** Parsed configuration and document bodies: what a YAML or JSON reader returns. */
module Values {

  datatype Option<+T> = None | Some(value: T)

  datatype Result<+T, +E> = Ok(value: T) | Err(error: E)

  datatype Value =
    | Null
    | Bool(b: bool)
    | Int(n: int)
    | Float(repr: string)
    | Str(text: string)
    | List(items: seq<Value>)
    | Map(entries: map<string, Value>)

  /** A mapping body, the value of Python's `dict`. */
  type Body = map<string, Value>

  /** The segments of a dotted key. */
  type Path = seq<string>

  /** The value found by following `p` from `v`, if every step is a mapping holding the key. */
  function Lookup(v: Value, p: Path): Option<Value>
    decreases |p|
  {
    if p == [] then Some(v)
    else if v.Map? && p[0] in v.entries then Lookup(v.entries[p[0]], p[1..])
    else None
  }

  /** What a flattening treats as a leaf: anything but a non-empty mapping. */
  predicate IsLeaf(v: Value) {
    !v.Map? || v.entries == map[]
  }

  /** `p` names a leaf of the body `m`. */
  predicate LeafAt(m: Body, p: Path) {
    p != [] && Lookup(Map(m), p).Some? && IsLeaf(Lookup(Map(m), p).value)
  }

  /** One of the two paths is a prefix of the other. */
  predicate Comparable(p: Path, q: Path) {
    p <= q || q <= p
  }

  /** Following `p + q` is following `p` and then `q`. */
  lemma {:induction false} LookupSplit(v: Value, p: Path, q: Path)
    ensures Lookup(v, p + q) ==
            if Lookup(v, p).Some? then Lookup(Lookup(v, p).value, q) else None
  {
    if p == [] {
      assert p + q == q;
    } else {
      assert (p + q)[0] == p[0] && (p + q)[1..] == p[1..] + q;
      if v.Map? && p[0] in v.entries {
        LookupSplit(v.entries[p[0]], p[1..], q);
      }
    }
  }

  /** No leaf lies strictly below another leaf. */
  lemma LeavesIncomparable(m: Body, p: Path, q: Path)
    requires LeafAt(m, p) && LeafAt(m, q) && Comparable(p, q)
    ensures p == q
  {
    var lo, hi := if p <= q then p else q, if p <= q then q else p;
    LookupSplit(Map(m), lo, hi[|lo|..]);
    assert lo + hi[|lo|..] == hi;
    if |lo| < |hi| {
      assert false;
    }
  }

  /** Every value has a leaf at or below it; the path is empty when the value is itself one. */
  lemma {:induction false} SomeLeaf(v: Value) returns (q: Path)
    ensures Lookup(v, q).Some? && IsLeaf(Lookup(v, q).value)
    ensures IsLeaf(v) <==> q == []
    decreases v
  {
    if IsLeaf(v) {
      q := [];
    } else {
      var k :| k in v.entries;
      var below := SomeLeaf(v.entries[k]);
      q := [k] + below;
      assert q[1..] == below;
    }
  }

  /** The two bodies have the same leaves with the same values. */
  ghost predicate SameLeaves(a: Body, b: Body) {
    forall p ::
      && (LeafAt(a, p) <==> LeafAt(b, p))
      && (LeafAt(a, p) ==> Lookup(Map(a), p) == Lookup(Map(b), p))
  }

  /** A leaf below key `k` is a leaf of the mapping held there. */
  lemma LeafBelow(m: Body, k: string, q: Path)
    ensures Lookup(Map(m), [k] + q) == if k in m then Lookup(m[k], q) else None
  {
    assert ([k] + q)[1..] == q;
  }

  /** A body is determined by its leaves. */
  lemma {:induction false} LeavesDetermineBody(a: Body, b: Body)
    requires SameLeaves(a, b)
    ensures a == b
    decreases Map(a)
  {
    forall k | k in a ensures k in b && a[k] == b[k] {
      var q := SomeLeaf(a[k]);
      LeafBelow(a, k, q);
      LeafBelow(b, k, q);
      assert LeafAt(a, [k] + q) && LeafAt(b, [k] + q);
      if IsLeaf(a[k]) {
        assert [k] + [] == [k];
      } else {
        var x := a[k].entries;
        assert b[k].Map?;
        var y := b[k].entries;
        forall p ensures (LeafAt(x, p) <==> LeafAt(y, p))
                 ensures LeafAt(x, p) ==> Lookup(Map(x), p) == Lookup(Map(y), p) {
          LeafBelow(a, k, p);
          LeafBelow(b, k, p);
          assert LeafAt(a, [k] + p) <==> LeafAt(b, [k] + p);
        }
        LeavesDetermineBody(x, y);
      }
    }
    forall k | k in b ensures k in a {
      var q := SomeLeaf(b[k]);
      LeafBelow(a, k, q);
      LeafBelow(b, k, q);
      assert LeafAt(b, [k] + q) && LeafAt(a, [k] + q);
    }
  }
}
