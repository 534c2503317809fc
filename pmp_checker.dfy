/**
 * The whole check: load the 128 values of a PMP snapshot, find the entry
 * that decides the access and resolve the verdict.
 */
module PmpChecker {
  import opened Bits
  import opened Wrappers
  import opened PmpConfig
  import opened PmpMatch
  import opened PmpResolve

  /** A loaded snapshot: 64 configuration bytes and 64 address registers. */
  datatype Snapshot = Snapshot(cfgs: seq<nat>, addrs: seq<nat>)

  /** The (L, R, W, X) of a scan's result, if there is one. */
  function PermsOf(m: Option<Hit>): Option<Permissions>
  {
    match m
    case None => None
    case Some(h) => Some(h.perms)
  }

  /** The verdict for an access to address in the given mode with the given operation. */
  function AccessVerdict(cfgs: seq<nat>, addrs: seq<nat>, address: nat, mode: string, op: string): (v: Verdict)
    requires WellFormed(cfgs, addrs)
    ensures v == NoAccessFault && mode != "M" ==>
              Match(cfgs, addrs, address).Some? && Grants(Match(cfgs, addrs, address).value.perms, op)
  {
    Resolve(PermsOf(Match(cfgs, addrs, address)), mode, op)
  }

  /**
   * Split the 128 configuration values into configuration bytes (the first
   * 64) and address registers (the last 64); any other count is rejected.
   */
  method LoadSnapshot(lines: seq<nat>) returns (r: Option<Snapshot>)
    ensures r.Some? <==> |lines| == 2 * Entries
    ensures r.Some? ==> WellFormed(r.value.cfgs, r.value.addrs)
                        && r.value.cfgs == lines[..Entries] && r.value.addrs == lines[Entries..]
  {
    if |lines| != 2 * Entries {
      return None;
    }
    var cfgs: seq<nat> := [];
    var addrs: seq<nat> := [];
    for i := 0 to Entries
      invariant cfgs == lines[..i]
    {
      cfgs := cfgs + [lines[i]];
    }
    for i := Entries to 2 * Entries
      invariant addrs == lines[Entries..i]
    {
      addrs := addrs + [lines[i]];
    }
    return Some(Snapshot(cfgs, addrs));
  }

  /** Scan the entries, then resolve the verdict from the match. */
  method CheckAccess(cfgs: seq<nat>, addrs: seq<nat>, address: nat, mode: string, op: string) returns (v: Verdict)
    requires WellFormed(cfgs, addrs)
    ensures v == AccessVerdict(cfgs, addrs, address, mode, op)
  {
    var matching := FindMatch(cfgs, addrs, address);
    v := Resolve(PermsOf(matching), mode, op);
  }

  /** The checker end to end: no verdict for a snapshot without exactly 128 values. */
  method CheckConfiguration(lines: seq<nat>, address: nat, mode: string, op: string) returns (v: Option<Verdict>)
    ensures v.None? <==> |lines| != 2 * Entries
    ensures v.Some? ==> v.value == AccessVerdict(lines[..Entries], lines[Entries..], address, mode, op)
  {
    var snapshot := LoadSnapshot(lines);
    if snapshot.None? {
      return None;
    }
    var verdict := CheckAccess(snapshot.value.cfgs, snapshot.value.addrs, address, mode, op);
    return Some(verdict);
  }

  // ---------------------------------------------------------------------
  // Whole-table properties
  // ---------------------------------------------------------------------

  /** With every entry OFF, machine mode is allowed and every other mode faults, for any address and operation. */
  lemma AllOffVerdict(cfgs: seq<nat>, addrs: seq<nat>, address: nat, mode: string, op: string)
    requires WellFormed(cfgs, addrs)
    requires forall i :: 0 <= i < Entries ==> Decode(cfgs[i]).mode == Off
    ensures AccessVerdict(cfgs, addrs, address, mode, op) == NoAccessFault <==> mode == "M"
  {
    MatchIsFirst(cfgs, addrs, address, 0, Permissions(false, false, false, false));
  }

  /**
   * Priority: when entry k decides, the verdict is that of entry k's
   * permissions, and no change to the entries above k alters it.
   */
  lemma PriorityVerdict(cfgs: seq<nat>, addrs: seq<nat>, cfgs': seq<nat>, addrs': seq<nat>,
                        address: nat, mode: string, op: string, k: nat)
    requires WellFormed(cfgs, addrs) && WellFormed(cfgs', addrs') && k < Entries
    requires EntryMatches(cfgs, addrs, k, address)
    requires forall j :: 0 <= j < k ==> !EntryMatches(cfgs, addrs, j, address)
    requires cfgs'[..k + 1] == cfgs[..k + 1] && addrs'[..k + 1] == addrs[..k + 1]
    ensures AccessVerdict(cfgs, addrs, address, mode, op) == Resolve(Some(Decode(cfgs[k]).perms), mode, op)
    ensures AccessVerdict(cfgs', addrs', address, mode, op) == AccessVerdict(cfgs, addrs, address, mode, op)
  {
    MatchIsFirst(cfgs, addrs, address, k, Decode(cfgs[k]).perms);
    MatchIgnoresLaterEntries(cfgs, addrs, cfgs', addrs', address);
  }

  /**
   * A worked table: entry 0 is a NAPOT entry over [0x1000, 0x1010) with
   * R=1, W=0, X=0, L=0 (byte 0x19, register 0x401) and every other entry is
   * OFF. A supervisor read of 0x1004 is allowed, a write faults, and with
   * nothing matching 0x1010 a user read faults while a machine read does not.
   */
  lemma NapotScenario()
    ensures var cfgs := [0x19] + seq(Entries - 1, _ => 0);
            var addrs := [0x401] + seq(Entries - 1, _ => 0);
            WellFormed(cfgs, addrs)
            && AccessVerdict(cfgs, addrs, 0x1004, "S", "R") == NoAccessFault
            && AccessVerdict(cfgs, addrs, 0x1004, "S", "W") == AccessFault
            && AccessVerdict(cfgs, addrs, 0x1010, "U", "R") == AccessFault
            && AccessVerdict(cfgs, addrs, 0x1010, "M", "R") == NoAccessFault
  {
    var cfgs := [0x19] + seq(Entries - 1, _ => 0);
    var addrs := [0x401] + seq(Entries - 1, _ => 0);
    assert Pow2(4) == 16;
    assert 0x1000 % Pow2(1 + 3) == 0;
    assert NapotAddress(0x1000, 1) == 0x401;
    NapotRoundTrip(0x1000, 1);
    assert Decode(0x19).mode == Napot;
    forall j | 1 <= j < Entries
      ensures Decode(cfgs[j]).mode == Off
    {
      assert cfgs[j] == 0;
    }
    var p := Decode(0x19).perms;
    assert p == Permissions(false, true, false, false);
    MatchIsFirst(cfgs, addrs, 0x1004, 0, p);
    MatchIsFirst(cfgs, addrs, 0x1010, 0, p);
  }
}
