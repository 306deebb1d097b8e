/** The two orders the payloads are sorted by: strings byte by byte, and cells by
    column then row. */
module Orders {
  import opened Sorting
  import opened HexGrid

  predicate LexLeq(a: string, b: string) {
    if a == [] then true
    else if b == [] then false
    else a[0] < b[0] || (a[0] == b[0] && LexLeq(a[1..], b[1..]))
  }

  const LexAtMost := (a: string, b: string) => LexLeq(a, b)

  predicate AxialLeq(a: Axial, b: Axial) {
    a.q < b.q || (a.q == b.q && a.r <= b.r)
  }

  const AxialAtMost := (a: Axial, b: Axial) => AxialLeq(a, b)

  lemma LexTotal()
    ensures TotalOrder(LexAtMost)
  {
    forall a, b ensures LexLeq(a, b) || LexLeq(b, a) { LexConnex(a, b); }
    forall a, b | LexLeq(a, b) && LexLeq(b, a) ensures a == b { LexAntisymmetric(a, b); }
    forall a, b, c | LexLeq(a, b) && LexLeq(b, c) ensures LexLeq(a, c) { LexTransitive(a, b, c); }
  }

  lemma LexConnex(a: string, b: string)
    ensures LexLeq(a, b) || LexLeq(b, a)
  {
  }

  lemma {:induction false} LexAntisymmetric(a: string, b: string)
    requires LexLeq(a, b) && LexLeq(b, a)
    ensures a == b
  {
    if a != [] && b != [] {
      LexAntisymmetric(a[1..], b[1..]);
      assert a == [a[0]] + a[1..] && b == [b[0]] + b[1..];
    }
  }

  lemma {:induction false} LexTransitive(a: string, b: string, c: string)
    requires LexLeq(a, b) && LexLeq(b, c)
    ensures LexLeq(a, c)
  {
    if a != [] && b != [] && c != [] && a[0] == b[0] == c[0] {
      LexTransitive(a[1..], b[1..], c[1..]);
    }
  }

  lemma AxialTotal()
    ensures TotalOrder(AxialAtMost)
  {
  }
}
