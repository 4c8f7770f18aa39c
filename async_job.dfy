/** The order in which the priority executor takes AsyncJobs: higher priority first, then lower operation id. */
module Jobs {
  /** An AsyncJob's ordering keys; the supplier and the future play no part in the order. */
  datatype Job = Job(priority: int, operationId: int)

  /** Integer.compareTo and Long.compareTo: -1, 0 or 1. */
  function Compare(x: int, y: int): (r: int)
    ensures r == -1 || r == 0 || r == 1
    ensures r < 0 <==> x < y
    ensures r == 0 <==> x == y
  {
    if x < y then -1 else if x == y then 0 else 1
  }

  /** The reference order: lexicographic on (-priority, operationId). */
  predicate Before(a: Job, b: Job)
  {
    -a.priority < -b.priority || (-a.priority == -b.priority && a.operationId < b.operationId)
  }

  /** compareTo: the negated priority comparison, or the operation ids when the priorities are equal. */
  function CompareTo(a: Job, b: Job): (r: int)
    ensures r == -1 || r == 0 || r == 1
    ensures r < 0 <==> Before(a, b)
    ensures r == 0 <==> a == b
    ensures r > 0 <==> Before(b, a)
  {
    var priorityComp := -Compare(a.priority, b.priority);
    if priorityComp != 0 then priorityComp else Compare(a.operationId, b.operationId)
  }

  /** A job of higher priority sorts before one of lower priority, whatever their ids. */
  lemma HigherPriorityFirst(a: Job, b: Job)
    requires a.priority > b.priority
    ensures CompareTo(a, b) == -1 && CompareTo(b, a) == 1
  {
  }

  /** Between equal priorities the smaller operation id sorts first. */
  lemma EqualPriorityByOperation(a: Job, b: Job)
    requires a.priority == b.priority
    ensures CompareTo(a, b) < 0 <==> a.operationId < b.operationId
    ensures CompareTo(a, b) == Compare(a.operationId, b.operationId)
  {
  }

  lemma Reflexive(a: Job)
    ensures CompareTo(a, a) == 0
  {
  }

  /** sgn(a.compareTo(b)) == -sgn(b.compareTo(a)). */
  lemma Antisymmetric(a: Job, b: Job)
    ensures CompareTo(a, b) == -CompareTo(b, a)
  {
  }

  lemma Transitive(a: Job, b: Job, c: Job)
    requires CompareTo(a, b) <= 0 && CompareTo(b, c) <= 0
    ensures CompareTo(a, c) <= 0
    ensures CompareTo(a, b) < 0 || CompareTo(b, c) < 0 ==> CompareTo(a, c) < 0
  {
  }

  /** Jobs that compare as equal agree in sign against every third job. */
  lemma ZeroIsConsistent(a: Job, b: Job, c: Job)
    requires CompareTo(a, b) == 0
    ensures CompareTo(a, c) == CompareTo(b, c)
  {
  }
}
