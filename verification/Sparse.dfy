/** JavaScript arrays with holes: reading past the end gives undefined, writing extends. */
module Sparse {

  datatype Option<+T> = None | Some(value: T)

  type Array<T> = seq<Option<T>>

  function Holes<T>(n: nat): Array<T> {
    seq(n, _ => None)
  }

  function At<T>(s: Array<T>, p: nat): Option<T> {
    if p < |s| then s[p] else None
  }

  /** `s[p] = v` */
  function Put<T>(s: Array<T>, p: nat, v: T): Array<T> {
    if p < |s| then s[p := Some(v)] else s + Holes(p - |s|) + [Some(v)]
  }

  /** `s.length = n` */
  function Resize<T>(s: Array<T>, n: nat): Array<T> {
    if |s| <= n then s + Holes(n - |s|) else s[..n]
  }

  lemma AtPut<T>(s: Array<T>, p: nat, v: T, q: nat)
    ensures At(Put(s, p, v), q) == if q == p then Some(v) else At(s, q)
  {
  }

  lemma AtResize<T>(s: Array<T>, n: nat, q: nat)
    ensures At(Resize(s, n), q) == if q < n then At(s, q) else None
  {
  }
}
