/** A mutex request and the total order Lamport's algorithm ranks requests
    by: timestamp first, process id to break ties. */
module Requests {
  import opened JavaLang

  /** `dto/Request`. Lombok's `@Data` makes equality field-wise, which is
      datatype equality here. */
  datatype Request = Request(timestamp: Long, processId: JString)

  /** Reference order, stated without the comparator: the earlier timestamp
      first, and on equal timestamps the lexicographically smaller id. */
  predicate Precedes(a: Request, b: Request)
  {
    a.timestamp < b.timestamp
    || (a.timestamp == b.timestamp && LexLess(a.processId, b.processId))
  }

  /** `Request.compareTo`: `Long.compare` on the timestamps, and
      `String.compareTo` on the process ids when the timestamps are equal.
      It is negative exactly when `a` precedes `b`, and 0 exactly for equal
      requests. */
  function Compare(a: Request, b: Request): (r: int)
    ensures r < 0 <==> Precedes(a, b)
    ensures r == 0 <==> a == b
  {
    var byTime := LongCompare(a.timestamp, b.timestamp);
    if byTime != 0 then byTime else StringCompare(a.processId, b.processId)
  }

  lemma CompareReflexive(r: Request)
    ensures Compare(r, r) == 0
  {
  }

  /** Swapping the arguments negates the result exactly, so in particular
      the signs are opposite. */
  lemma CompareAntisymmetric(a: Request, b: Request)
    ensures Compare(a, b) == -Compare(b, a)
  {
    StringCompareAntisymmetric(a.processId, b.processId);
  }

  lemma CompareTransitive(a: Request, b: Request, c: Request)
    requires Compare(a, b) < 0 && Compare(b, c) < 0
    ensures Compare(a, c) < 0
  {
    if a.timestamp == b.timestamp == c.timestamp {
      StringCompareTransitive(a.processId, b.processId, c.processId);
    }
  }

  /** Different timestamps decide the order alone, the smaller first. */
  lemma CompareByTimestamp(a: Request, b: Request)
    requires a.timestamp != b.timestamp
    ensures Compare(a, b) == (if a.timestamp < b.timestamp then -1 else 1)
  {
  }

  /** Equal timestamps fall back to lexicographic order of the ids, with a
      proper prefix first. */
  lemma CompareTieBreak(a: Request, b: Request)
    requires a.timestamp == b.timestamp
    ensures Compare(a, b) == StringCompare(a.processId, b.processId)
    ensures Compare(a, b) < 0 <==> LexLess(a.processId, b.processId)
  {
  }

  /** The reference order is a strict total order: of any two requests,
      exactly one of "a first", "equal", "b first" holds. */
  lemma PrecedesTrichotomy(a: Request, b: Request)
    ensures Precedes(a, b) || a == b || Precedes(b, a)
    ensures !(Precedes(a, b) && Precedes(b, a))
    ensures !Precedes(a, a)
  {
    CompareAntisymmetric(a, b);
    CompareReflexive(a);
  }

  lemma PrecedesTransitive(a: Request, b: Request, c: Request)
    requires Precedes(a, b) && Precedes(b, c)
    ensures Precedes(a, c)
  {
    CompareTransitive(a, b, c);
  }
}
