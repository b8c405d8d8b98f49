/** Small definitions shared by several models. */
module Common {
  datatype Option<T> = None | Some(value: T)

  /** Bytes in a page, for the IOMMU and for the TLBs. */
  const PAGE: nat := 4096

  /** The n bytes from a and the k bytes from b have none in common (both not empty). */
  predicate Apart(a: nat, n: nat, b: nat, k: nat) {
    a + n <= b || b + k <= a
  }

  lemma Assoc<T>(a: seq<T>, b: seq<T>, c: seq<T>)
    ensures a + (b + c) == (a + b) + c
  {
  }
}
