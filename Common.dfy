/** Small shared vocabulary: optional values, JavaScript truthiness and ceiling division. */
module Common {

  datatype Option<+T> = None | Some(value: T)

  /** A positive integer: the only page or limit value the listing model accepts. */
  type Positive = n: nat | n >= 1 witness 1

  /** JavaScript truthiness of an optional string: present and not the empty string. */
  predicate Truthy(o: Option<string>)
  {
    o.Some? && o.value != ""
  }

  function Min(a: nat, b: nat): nat
  {
    if a <= b then a else b
  }

  /** Math.ceil(a / b): the least q with q * b >= a. */
  function CeilDiv(a: nat, b: Positive): (q: nat)
    ensures q * b >= a
    ensures q * b < a + b
    ensures q == 0 || (q - 1) * b < a
  {
    var d := a / b;
    assert a == d * b + a % b;
    if a % b == 0 then d else d + 1
  }

  /** A ceiling quotient is monotone in its numerator. */
  lemma CeilDivMonotone(a: nat, a': nat, b: Positive)
    requires a <= a'
    ensures CeilDiv(a, b) <= CeilDiv(a', b)
  {
    var q, q' := CeilDiv(a, b), CeilDiv(a', b);
    if q > q' {
      MulMonotone(q' + 1, q, b);
      assert false;
    }
  }

  /** A page whose window starts below total is within ceil(total / b) pages. */
  lemma PageWithinCount(page: Positive, b: Positive, total: nat)
    requires (page - 1) * b < total
    ensures page <= CeilDiv(total, b)
  {
    var q := CeilDiv(total, b);
    if q < page {
      MulMonotone(q, page - 1, b);
      assert false;
    }
  }

  lemma MulMonotone(x: nat, y: nat, b: nat)
    requires x <= y
    ensures x * b <= y * b
  {
  }
}
