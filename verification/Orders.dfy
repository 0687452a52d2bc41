/** Three-way comparison and lexicographic order, the way Python compares tuples. */
module Orders {

  datatype Cmp = Less | Equal | Greater {
    function Flip(): Cmp {
      match this
      case Less => Greater
      case Equal => Equal
      case Greater => Less
    }

    /** Lexicographic composition: the first difference decides. */
    function Then(next: Cmp): Cmp {
      if this.Equal? then next else this
    }
  }

  function CmpInt(a: int, b: int): Cmp {
    if a < b then Less else if a > b then Greater else Equal
  }

  function CmpSeq<T>(cmp: (T, T) -> Cmp, a: seq<T>, b: seq<T>): Cmp {
    if a == [] && b == [] then Equal
    else if a == [] then Less
    else if b == [] then Greater
    else cmp(a[0], b[0]).Then(CmpSeq(cmp, a[1..], b[1..]))
  }

  function CmpInts(a: seq<int>, b: seq<int>): Cmp {
    CmpSeq(CmpInt, a, b)
  }

  function CmpChar(a: char, b: char): Cmp {
    CmpInt(a as int, b as int)
  }

  function CmpString(a: string, b: string): Cmp {
    CmpSeq(CmpChar, a, b)
  }

  /** `Equal` exactly on equal values, antisymmetric, transitive (totality is built into `Cmp`). */
  ghost predicate TotalOrder<T(!new)>(cmp: (T, T) -> Cmp) {
    && (forall a, b :: cmp(a, b) == Equal <==> a == b)
    && (forall a, b :: cmp(b, a) == cmp(a, b).Flip())
    && (forall a, b, c :: cmp(a, b) != Greater && cmp(b, c) != Greater ==> cmp(a, c) != Greater)
  }

  lemma {:induction false} SeqSymmetry<T(!new)>(cmp: (T, T) -> Cmp, a: seq<T>, b: seq<T>)
    requires TotalOrder(cmp)
    ensures CmpSeq(cmp, a, b) == Equal <==> a == b
    ensures CmpSeq(cmp, b, a) == CmpSeq(cmp, a, b).Flip()
  {
    if a != [] && b != [] {
      SeqSymmetry(cmp, a[1..], b[1..]);
      assert a == [a[0]] + a[1..] && b == [b[0]] + b[1..];
    }
  }

  lemma {:induction false} SeqTransitive<T(!new)>(cmp: (T, T) -> Cmp, a: seq<T>, b: seq<T>, c: seq<T>)
    requires TotalOrder(cmp)
    requires CmpSeq(cmp, a, b) != Greater && CmpSeq(cmp, b, c) != Greater
    ensures CmpSeq(cmp, a, c) != Greater
  {
    if a != [] && b != [] && c != [] {
      assert cmp(a[0], c[0]) != Greater;
      if cmp(a[0], c[0]) == Equal {
        assert cmp(b[0], a[0]) == cmp(a[0], b[0]).Flip();
        SeqTransitive(cmp, a[1..], b[1..], c[1..]);
      }
    }
  }

  lemma IntsTotalOrder()
    ensures TotalOrder(CmpInts)
  {
    forall a, b ensures (CmpInts(a, b) == Equal <==> a == b) && CmpInts(b, a) == CmpInts(a, b).Flip() {
      SeqSymmetry(CmpInt, a, b);
    }
    forall a, b, c | CmpInts(a, b) != Greater && CmpInts(b, c) != Greater ensures CmpInts(a, c) != Greater {
      SeqTransitive(CmpInt, a, b, c);
    }
  }

  lemma StringTotalOrder()
    ensures TotalOrder(CmpString)
  {
    forall a, b ensures (CmpString(a, b) == Equal <==> a == b) && CmpString(b, a) == CmpString(a, b).Flip() {
      SeqSymmetry(CmpChar, a, b);
    }
    forall a, b, c | CmpString(a, b) != Greater && CmpString(b, c) != Greater ensures CmpString(a, c) != Greater {
      SeqTransitive(CmpChar, a, b, c);
    }
  }
}
