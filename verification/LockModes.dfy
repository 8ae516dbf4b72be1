/** What the lock modes are for (`transaction/lock.go`, the comments on the modes): each
    gives rights on a resource and on the parts inside it. The compatibility table is
    measured against these rights. */
module LockModes {
  import opened LockTable

  /** Rights on parts are sorted out by locks on the parts; the others cover every part. */
  datatype Right = ReadParts | WriteParts | ReadAll | WriteAll

  function Rights(m: Mode): set<Right> {
    match m
    case IS => {ReadParts}
    case IX => {ReadParts, WriteParts}
    case S => {ReadParts, ReadAll}
    case SIX => {ReadParts, WriteParts, ReadAll}
    case X => {ReadParts, WriteParts, ReadAll, WriteAll}
  }

  predicate Writes(r: Right) {
    r == WriteParts || r == WriteAll
  }

  predicate CoversEveryPart(r: Right) {
    r == ReadAll || r == WriteAll
  }

  /** One of the two writes, and one of them covers every part. */
  predicate RightsClash(r: Right, q: Right) {
    (Writes(r) || Writes(q)) && (CoversEveryPart(r) || CoversEveryPart(q))
  }

  predicate ModesClash(a: Mode, b: Mode) {
    exists r, q :: r in Rights(a) && q in Rights(b) && RightsClash(r, q)
  }

  predicate SharedAndSix(a: Mode, b: Mode) {
    (a == S && b == SIX) || (a == SIX && b == S)
  }

  /** Two modes are compatible exactly when no rights clash, but for one pair: S and SIX are
      let through together although SIX writes parts of what S reads as a whole. */
  lemma CompatibleIffNoClash(a: Mode, b: Mode)
    ensures IsCompatible(a, b) <==> !ModesClash(a, b) || SharedAndSix(a, b)
  {
    match a
    case X => ClashesHere(a, b, WriteAll, ReadParts);
    case S => ClashesHere(a, b, ReadAll, WriteParts);
    case SIX => ClashesHere(a, b, WriteParts, ReadAll); ClashesHere(a, b, ReadAll, WriteParts);
    case _ => ClashesHere(a, b, WriteParts, ReadAll); ClashesHere(a, b, ReadParts, WriteAll);
  }

  lemma ClashesHere(a: Mode, b: Mode, r: Right, q: Right)
    ensures r in Rights(a) && q in Rights(b) && RightsClash(r, q) ==> ModesClash(a, b)
  {
  }
}
