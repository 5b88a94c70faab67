/** Go's ordering on strings, used by the sort in readDir.

    Go compares strings byte by byte over their UTF-8 encoding, and a proper
    prefix is smaller than the longer string. Over Unicode scalar values the
    UTF-8 byte order and the code-point order agree, so comparing `char`s
    one at a time gives the same answer. */
module Names {

  /** `a <= b` in Go's string order. */
  predicate Le(a: string, b: string)
  {
    if a == [] then true
    else if b == [] then false
    else if a[0] != b[0] then a[0] < b[0]
    else Le(a[1..], b[1..])
  }

  /** `a < b` in Go's string order: the comparison the sort callback uses. */
  predicate Less(a: string, b: string)
  {
    Le(a, b) && a != b
  }

  lemma {:induction false} LeReflexive(a: string)
    ensures Le(a, a)
  {
    if a != [] {
      LeReflexive(a[1..]);
    }
  }

  lemma {:induction false} LeTotal(a: string, b: string)
    ensures Le(a, b) || Le(b, a)
  {
    if a != [] && b != [] && a[0] == b[0] {
      LeTotal(a[1..], b[1..]);
    }
  }

  lemma {:induction false} LeAntisymmetric(a: string, b: string)
    requires Le(a, b) && Le(b, a)
    ensures a == b
  {
    if a != [] && b != [] {
      LeAntisymmetric(a[1..], b[1..]);
      assert a == [a[0]] + a[1..] && b == [b[0]] + b[1..];
    }
  }

  lemma {:induction false} LeTransitive(a: string, b: string, c: string)
    requires Le(a, b) && Le(b, c)
    ensures Le(a, c)
  {
    if a != [] && b != [] && c != [] && a[0] == b[0] && b[0] == c[0] {
      LeTransitive(a[1..], b[1..], c[1..]);
    }
  }

  /** Not `a < b` means `b <= a`: the sort's stopping test decides the order. */
  lemma NotLessIsLe(a: string, b: string)
    requires !Less(a, b)
    ensures Le(b, a)
  {
    LeTotal(a, b);
    if Le(a, b) {
      assert a == b;
      LeReflexive(b);
    }
  }

  lemma LessTransitive(a: string, b: string, c: string)
    requires Less(a, b) && Less(b, c)
    ensures Less(a, c)
  {
    LeTransitive(a, b, c);
    if a == c {
      LeAntisymmetric(b, c);
    }
  }
}
