/**
 * Concurrent text edits: the three operations, the transformation of one edit against another,
 * and the execution of an edit. The author and time stamp every operation carries are copied by
 * the transformation and read by nothing here, so they are not part of the model.
 */
module OperationalTransform {
  import opened Slices

  datatype Operation =
    | Insert(position: nat, text: string)
    | Delete(position: nat, length: nat)
    | Replace(position: nat, length: nat, text: string)

  function TransformAgainstInsert(a: Operation, b: Operation): Operation
    requires b.Insert?
  {
    match a
    case Insert(p, s) =>
      if b.position <= p then Insert(p + |b.text|, s) else a
    case Delete(p, n) =>
      if b.position <= p then Delete(p + |b.text|, n)
      else if b.position < p + n then Delete(p, n + |b.text|)
      else a
    case Replace(p, n, s) =>
      if b.position <= p then Replace(p + |b.text|, n, s)
      else if b.position < p + n then Replace(p, n + |b.text|, s)
      else a
  }

  function TransformAgainstDelete(a: Operation, b: Operation): Operation
    requires b.Delete?
  {
    var bEnd := b.position + b.length;
    match a
    case Insert(p, s) =>
      if p >= bEnd then Insert(p - b.length, s)
      else if p >= b.position then Insert(b.position, s)
      else a
    case Delete(p, n) =>
      var aEnd := p + n;
      if p >= bEnd then Delete(p - b.length, n)
      else if aEnd <= b.position then a
      else if b.position <= p && bEnd >= aEnd then Delete(b.position, 0)
      else if b.position <= p && bEnd < aEnd then Delete(b.position, aEnd - bEnd)
      else if b.position > p && bEnd >= aEnd then Delete(p, b.position - p)
      else Delete(p, n - b.length)
    case Replace(p, n, s) =>
      var aEnd := p + n;
      if p >= bEnd then Replace(p - b.length, n, s)
      else if aEnd <= b.position then a
      else if b.position <= p && bEnd >= aEnd then Replace(b.position, 0, "")
      else if b.position <= p && bEnd < aEnd then
        var overlap := bEnd - p;
        Replace(b.position, n - overlap, Drop(s, overlap))
      else if b.position > p && bEnd >= aEnd then
        var remaining := b.position - p;
        Replace(p, remaining, Take(s, remaining))
      else
        var prefix := b.position - p;
        Replace(p, n - b.length, Take(s, prefix) + Drop(s, prefix + b.length))
  }

  // The form of `a` that has the same intent once `b` has been executed.
  function Transform(a: Operation, b: Operation): Operation {
    match b
    case Insert(_, _) => TransformAgainstInsert(a, b)
    case Delete(_, _) => TransformAgainstDelete(a, b)
    case Replace(p, n, s) => TransformAgainstInsert(TransformAgainstDelete(a, Delete(p, n)), Insert(p, s))
  }

  function Apply(doc: string, op: Operation): string {
    match op
    case Insert(p, s) => Take(doc, p) + s + Drop(doc, p)
    case Delete(p, n) => Take(doc, p) + Drop(doc, p + n)
    case Replace(p, n, s) => Take(doc, p) + s + Drop(doc, p + n)
  }

  /** The operation addresses text that a document of `n` characters has. */
  predicate InBounds(op: Operation, n: nat) {
    match op
    case Insert(p, _) => p <= n
    case Delete(p, k) => p + k <= n
    case Replace(p, k, _) => p + k <= n
  }

  // How many characters of the document the operation takes away, and the text it puts there.
  function Cut(op: Operation): nat { if op.Insert? then 0 else op.length }
  function Text(op: Operation): string { if op.Delete? then "" else op.text }

  /** Where position i lies once n characters at p are gone. */
  function PastDeletion(i: nat, p: nat, n: nat): nat {
    if i >= p + n then i - n else if i > p then p else i
  }

  /** Two replicas start from `doc`; each executes its own edit, then the other's transformed edit. */
  predicate Converges(doc: string, a: Operation, b: Operation) {
    Apply(Apply(doc, a), Transform(b, a)) == Apply(Apply(doc, b), Transform(a, b))
  }
}
