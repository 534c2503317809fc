/**
 * The permission resolver: from the matched entry's (L, R, W, X), or its
 * absence, the privilege mode token and the operation token, decide
 * whether the access faults.
 */
module PmpResolve {
  import opened Wrappers
  import opened PmpConfig

  /** The two answers the checker prints: "No Access Fault" and "Access Fault". */
  datatype Verdict = NoAccessFault | AccessFault

  /**
   * The decision as the checker makes it. Without a match only mode "M"
   * is allowed. With a match, mode "M" on an unlocked entry is allowed;
   * otherwise operation "R", "W" or "X" needs the entry's R, W or X bit, and
   * any other operation token faults.
   */
  function Resolve(matched: Option<Permissions>, mode: string, op: string): (v: Verdict)
    ensures v == NoAccessFault ==> mode == "M" || (matched.Some? && Grants(matched.value, op))
    ensures mode == "M" && (matched.None? || !matched.value.locked) ==> v == NoAccessFault
  {
    match matched
    case None => if mode == "M" then NoAccessFault else AccessFault
    case Some(p) =>
      var allowed :=
        if mode == "M" && !p.locked then true
        else if op == "R" then p.read
        else if op == "W" then p.write
        else if op == "X" then p.execute
        else false;
      if allowed then NoAccessFault else AccessFault
  }

  /** Whether permissions p grant operation op on their own (unknown tokens are never granted). */
  predicate Grants(p: Permissions, op: string)
  {
    (op == "R" && p.read) || (op == "W" && p.write) || (op == "X" && p.execute)
  }

  /** With no matching entry, exactly machine mode is allowed, whatever the operation. */
  lemma ResolveNoMatch(mode: string, op: string)
    ensures Resolve(None, mode, op) == NoAccessFault <==> mode == "M"
  {
  }

  /**
   * With a matching entry: machine mode on an unlocked entry is allowed
   * whatever R, W and X hold; in every other case the access is allowed iff
   * the entry grants the operation.
   */
  lemma ResolveMatched(p: Permissions, mode: string, op: string)
    ensures mode == "M" && !p.locked ==> Resolve(Some(p), mode, op) == NoAccessFault
    ensures mode != "M" || p.locked ==> (Resolve(Some(p), mode, op) == NoAccessFault <==> Grants(p, op))
  {
  }

  /**
   * Fail-closed: an operation token other than "R", "W" and "X" is allowed
   * only where the operation plays no part, i.e. in machine mode with no
   * match or an unlocked match.
   */
  lemma ResolveUnknownOperation(matched: Option<Permissions>, mode: string, op: string)
    requires op != "R" && op != "W" && op != "X"
    ensures Resolve(matched, mode, op) == NoAccessFault <==>
              mode == "M" && (matched.None? || !matched.value.locked)
  {
  }

  /**
   * Outside machine mode an access is allowed only by an explicit
   * permission bit of a matching entry, and every mode token other than
   * "M" ("S", "U" or anything else) is treated alike.
   */
  lemma ResolveNonMachine(matched: Option<Permissions>, mode: string, mode': string, op: string)
    requires mode != "M" && mode' != "M"
    ensures Resolve(matched, mode, op) == NoAccessFault ==> matched.Some? && Grants(matched.value, op)
    ensures Resolve(matched, mode, op) == Resolve(matched, mode', op)
  {
  }

  /** Machine mode is the most privileged: whatever another mode may do, machine mode may do. */
  lemma ResolveMachineDominates(matched: Option<Permissions>, mode: string, op: string)
    ensures Resolve(matched, mode, op) == NoAccessFault ==> Resolve(matched, "M", op) == NoAccessFault
  {
  }

  /**
   * The lock bit only restricts, and only machine mode: locking an entry
   * never turns a fault into an allowed access, and it changes nothing for
   * other modes. A locked entry without R denies a machine-mode read; the
   * same entry unlocked allows it.
   */
  lemma ResolveLockBit(p: Permissions, mode: string, op: string)
    ensures (Resolve(Some(p.(locked := true)), mode, op) == NoAccessFault
             ==> Resolve(Some(p.(locked := false)), mode, op) == NoAccessFault)
    ensures mode != "M" ==> Resolve(Some(p.(locked := true)), mode, op) == Resolve(Some(p.(locked := false)), mode, op)
    ensures !p.read ==> Resolve(Some(p.(locked := true)), "M", "R") == AccessFault
    ensures Resolve(Some(p.(locked := false)), "M", "R") == NoAccessFault
  {
  }
}
