/**
 * The growth policy of the raw-text buffer: the control keeps every character the terminal
 * has recorded in a char array with a length counter and enlarges the array by a fixed step
 * when an append would not fit.
 */
module RawTextGrowth {

  /** The number of slots one enlargement adds. */
  const GrowthStep: nat := 1000000

  /** The capacity after the source's single check-and-resize before appending n characters to
   * a buffer of the given capacity holding length characters. */
  function GrowAsWritten(capacity: nat, length: nat, n: nat): (c: nat)
    ensures c == capacity || c == capacity + GrowthStep
    ensures c == capacity <==> length + n <= capacity
    ensures length + n <= capacity + GrowthStep ==> length + n <= c
  {
    if length + n > capacity then capacity + GrowthStep else capacity
  }

  /** One enlargement is not always enough: a batch of more than GrowthStep characters into an
   * empty buffer still does not fit, so the copy loop would write past the end of the array. */
  lemma GrowAsWrittenOverflows()
    ensures GrowAsWritten(0, 0, GrowthStep + 1) < 0 + (GrowthStep + 1)
  {
  }

  /** The capacity after enlarging by GrowthStep as many times as the append needs. */
  function GrownCapacity(capacity: nat, length: nat, n: nat): (c: nat)
    ensures c >= capacity && c >= length + n
    ensures (c - capacity) % GrowthStep == 0
    ensures c == capacity || c - GrowthStep < length + n
    decreases length + n - capacity
  {
    if length + n > capacity then GrownCapacity(capacity + GrowthStep, length, n) else capacity
  }

  /** Whenever one enlargement suffices, the corrected policy is the source's. */
  lemma GrownCapacityAgrees(capacity: nat, length: nat, n: nat)
    requires length + n <= capacity + GrowthStep
    ensures GrownCapacity(capacity, length, n) == GrowAsWritten(capacity, length, n)
  {
  }

  /** A buffer that already has room is never enlarged. */
  lemma GrownCapacityFits(capacity: nat, length: nat, n: nat)
    requires length + n <= capacity
    ensures GrownCapacity(capacity, length, n) == capacity
  {
  }
}
