/**
 Cells of a data frame and the comparison rules that element-wise frame
 operations apply to them.

 The interface is Python 2 code running over pandas/dask frames, so two
 notions of equality are needed:
 - element-wise frame comparisons (`series == v`, `start <= series`) treat a
   missing cell (None or NaN) as comparing false with everything;
 - Python's own `==` on extracted key tuples treats `None == None` as true
   and `NaN == NaN` as false.
 Ordering follows Python 2: numbers compare by value, strings
 lexicographically, and every number is smaller than every string.
 */
module Values {

  /** One cell of a frame column. */
  datatype Value =
    | IntV(i: int)
    | FloatV(f: real)     // a finite float
    | StrV(s: string)
    | NullV               // Python's None
    | NaNV                // a floating-point NaN

  datatype Option<+T> = None | Some(value: T)

  /** The Python exceptions the interface can raise. */
  datatype Error =
    | KeyError(name: string)
    | AttributeError
    | IndexError
    | TypeError
    | ValueError
    /** The dask frame's own rejection of an indexing key it does not
        support, such as `df[None]`; its exception class is the library's. */
    | InvalidIndexer
    | NotImplementedError(message: string)

  datatype Result<+T> = Ok(value: T) | Err(error: Error) {
    predicate IsFailure() { Err? }

    function PropagateFailure<U>(): Result<U>
      requires Err?
    {
      Err(error)
    }

    function Extract(): T
      requires Ok?
    {
      value
    }
  }

  /** pandas' `isnull`: None and NaN are both missing. */
  predicate Missing(v: Value) {
    v.NullV? || v.NaNV?
  }

  predicate IsNum(v: Value) {
    v.IntV? || v.FloatV?
  }

  function Num(v: Value): real
    requires IsNum(v)
  {
    if v.IntV? then v.i as real else v.f
  }

  /** Lexicographic order on strings by character code. */
  predicate StrLt(s: string, t: string)
    decreases |s|
  {
    if |s| == 0 then |t| > 0
    else |t| > 0 && (s[0] < t[0] || (s[0] == t[0] && StrLt(s[1..], t[1..])))
  }

  /** Element-wise `a < b`; false whenever either side is missing. */
  predicate Lt(a: Value, b: Value) {
    if IsNum(a) && IsNum(b) then Num(a) < Num(b)
    else if a.StrV? && b.StrV? then StrLt(a.s, b.s)
    else IsNum(a) && b.StrV?
  }

  /** Element-wise `a == b`; false whenever either side is missing. */
  predicate ElemEq(a: Value, b: Value) {
    if IsNum(a) && IsNum(b) then Num(a) == Num(b)
    else a.StrV? && b.StrV? && a.s == b.s
  }

  /** Element-wise `a <= b`. */
  predicate Le(a: Value, b: Value) {
    Lt(a, b) || ElemEq(a, b)
  }

  /** Python's `==` on scalars pulled out of a frame: like `ElemEq`, except
      that `None == None` holds. */
  predicate SameKey(a: Value, b: Value) {
    ElemEq(a, b) || (a.NullV? && b.NullV?)
  }

  lemma {:induction false} StrLtTransitive(s: string, t: string, u: string)
    requires StrLt(s, t) && StrLt(t, u)
    ensures StrLt(s, u)
    decreases |s|
  {
    if |s| > 0 && s[0] == t[0] && t[0] == u[0] {
      StrLtTransitive(s[1..], t[1..], u[1..]);
    }
  }

  lemma {:induction false} StrLtTotal(s: string, t: string)
    requires s != t
    ensures StrLt(s, t) || StrLt(t, s)
    decreases |s|
  {
    if |s| > 0 && |t| > 0 && s[0] == t[0] {
      assert s == [s[0]] + s[1..] && t == [t[0]] + t[1..];
      StrLtTotal(s[1..], t[1..]);
    }
  }

  /** `Le` is a total preorder on the values that are not missing. */
  lemma LeTransitive(a: Value, b: Value, c: Value)
    requires Le(a, b) && Le(b, c)
    ensures Le(a, c)
  {
    if a.StrV? && b.StrV? && c.StrV? && StrLt(a.s, b.s) && StrLt(b.s, c.s) {
      StrLtTransitive(a.s, b.s, c.s);
    }
  }

  lemma LeTotal(a: Value, b: Value)
    requires !Missing(a) && !Missing(b)
    ensures Le(a, b) || Le(b, a)
  {
    if a.StrV? && b.StrV? && a.s != b.s {
      StrLtTotal(a.s, b.s);
    }
  }

  /** The three facts together, for every value, as a quantified lemma. */
  lemma LeIsTotalPreorder()
    ensures forall a :: !Missing(a) ==> Le(a, a)
    ensures forall a, b :: !Missing(a) && !Missing(b) ==> Le(a, b) || Le(b, a)
    ensures forall a, b, c :: Le(a, b) && Le(b, c) ==> Le(a, c)
  {
    forall a, b | !Missing(a) && !Missing(b)
      ensures Le(a, b) || Le(b, a)
    {
      LeTotal(a, b);
    }
    forall a, b, c | Le(a, b) && Le(b, c)
      ensures Le(a, c)
    {
      LeTransitive(a, b, c);
    }
  }

  /** `SameKey` is an equivalence on the values that are not NaN; NaN is
      equal to nothing, not even itself. */
  lemma SameKeyEquivalence(a: Value, b: Value, c: Value)
    ensures !a.NaNV? ==> SameKey(a, a)
    ensures SameKey(a, b) ==> SameKey(b, a)
    ensures SameKey(a, b) && SameKey(b, c) ==> SameKey(a, c)
    ensures a.NaNV? ==> !SameKey(a, b) && !SameKey(b, a)
  {
  }
}
