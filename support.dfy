/** Small sequence vocabulary shared by the message logs and the tool server. */
module Support {

  datatype Option<+T> = None | Some(value: T)

  /** `a` can be obtained from `b` by deleting elements: the order of `a` is the order of `b`.
      Matched greedily from the back, which is complete for subsequences. */
  predicate IsSubseq<T(==)>(a: seq<T>, b: seq<T>)
    decreases |b|
  {
    if a == [] then true
    else if b == [] then false
    else if a[|a| - 1] == b[|b| - 1] then IsSubseq(a[..|a| - 1], b[..|b| - 1])
    else IsSubseq(a, b[..|b| - 1])
  }

  /** The last `n` elements of `s`, in their original order (all of `s` when it is shorter):
      the effect of `slice(-n)` on an array longer than `n`. */
  function KeepLast<T>(s: seq<T>, n: nat): (r: seq<T>)
    ensures |r| <= n && |r| <= |s|
    ensures |r| == |s| || |r| == n
    ensures r == s[|s| - |r|..]
  {
    if |s| <= n then s else s[|s| - n..]
  }

  /** Trimming after every append keeps exactly the last `n` of the whole history:
      a bounded log that is trimmed step by step equals the untrimmed log trimmed once. */
  lemma {:induction false} KeepLastAppend<T>(s: seq<T>, x: T, n: nat)
    requires n > 0
    ensures KeepLast(KeepLast(s, n) + [x], n) == KeepLast(s + [x], n)
  {
    var a := KeepLast(KeepLast(s, n) + [x], n);
    var b := KeepLast(s + [x], n);
    assert |a| == |b|;
    forall k | 0 <= k < |a|
      ensures a[k] == b[k]
    {
      if k == |a| - 1 {
        assert a[k] == x && b[k] == x;
      }
    }
  }
}
