/**
 * The region matcher: entries are scanned in index order and the first
 * enabled entry whose range contains the address wins. Addresses are byte
 * addresses; address registers hold the address shifted right by 2.
 */
module PmpMatch {
  import opened Bits
  import opened Wrappers
  import opened PmpConfig

  /** The outcome of a successful scan: the entry's index and its (L, R, W, X). */
  datatype Hit = Hit(index: nat, perms: Permissions)

  /** The checker only scans a full table of 64 configuration bytes and 64 address registers. */
  predicate WellFormed(cfgs: seq<nat>, addrs: seq<nat>)
  {
    |cfgs| == Entries && |addrs| == Entries
  }

  /** TOR lower bound of entry i: 0 for entry 0, else the previous address register shifted left by 2. */
  function TorLower(addrs: seq<nat>, i: nat): nat
    requires i < |addrs|
  {
    if i == 0 then 0 else addrs[i - 1] * 4
  }

  /** NAPOT region size for address register a: 2^(t+3) bytes, t = trailing ones of a. */
  function NapotSize(a: nat): nat
  {
    Pow2(TrailingOnes(a) + 3)
  }

  /** NAPOT region base: a << 2 with its low t+3 bits cleared. */
  function NapotBase(a: nat): nat
  {
    AlignDown(a * 4, NapotSize(a))
  }

  /** Whether entry i, on its own, claims address x (the per-mode branches of the scan). */
  predicate EntryMatches(cfgs: seq<nat>, addrs: seq<nat>, i: nat, x: nat)
    requires WellFormed(cfgs, addrs) && i < Entries
    ensures EntryMatches(cfgs, addrs, i, x) ==> Decode(cfgs[i]).mode != Off
    ensures Decode(cfgs[i]).mode == Napot ==>
              (EntryMatches(cfgs, addrs, i, x) <==> x / NapotSize(addrs[i]) == (addrs[i] * 4) / NapotSize(addrs[i]))
  {
    NapotContains(addrs[i], x);
    var a := addrs[i];
    match Decode(cfgs[i]).mode
    case Off => false
    case Tor =>
      var lower, upper := TorLower(addrs, i), a * 4;
      lower < upper && lower <= x < upper
    case Na4 => a * 4 <= x < a * 4 + 4
    case Napot => NapotBase(a) <= x < NapotBase(a) + NapotSize(a)
  }

  /**
   * The scan from entry i on: the first entry at or after i that matches x.
   * A result names an entry that matches and that no entry between i and it
   * does; no result means no entry from i on matches.
   */
  function MatchFrom(cfgs: seq<nat>, addrs: seq<nat>, x: nat, i: nat): (r: Option<Hit>)
    requires WellFormed(cfgs, addrs) && i <= Entries
    ensures r.Some? ==> i <= r.value.index < Entries
                        && EntryMatches(cfgs, addrs, r.value.index, x)
                        && r.value.perms == Decode(cfgs[r.value.index]).perms
                        && forall j :: i <= j < r.value.index ==> !EntryMatches(cfgs, addrs, j, x)
    ensures r.None? ==> forall j :: i <= j < Entries ==> !EntryMatches(cfgs, addrs, j, x)
    decreases Entries - i
  {
    if i == Entries then None
    else if EntryMatches(cfgs, addrs, i, x) then Some(Hit(i, Decode(cfgs[i]).perms))
    else MatchFrom(cfgs, addrs, x, i + 1)
  }

  /** The entry that decides an access to x, if any. */
  function Match(cfgs: seq<nat>, addrs: seq<nat>, x: nat): (r: Option<Hit>)
    requires WellFormed(cfgs, addrs)
    ensures r.Some? ==> r.value.index < Entries && EntryMatches(cfgs, addrs, r.value.index, x)
                        && r.value.perms == Decode(cfgs[r.value.index]).perms
                        && forall j :: 0 <= j < r.value.index ==> !EntryMatches(cfgs, addrs, j, x)
    ensures r.None? ==> forall j :: 0 <= j < Entries ==> !EntryMatches(cfgs, addrs, j, x)
  {
    MatchFrom(cfgs, addrs, x, 0)
  }

  // ---------------------------------------------------------------------
  // First-match priority
  // ---------------------------------------------------------------------

  /**
   * Match picks exactly the lowest-index matching entry: entry k with
   * permissions p is the result iff k matches, p are its permissions and no
   * lower entry matches; there is no result iff no entry matches.
   */
  lemma MatchIsFirst(cfgs: seq<nat>, addrs: seq<nat>, x: nat, k: nat, p: Permissions)
    requires WellFormed(cfgs, addrs)
    ensures Match(cfgs, addrs, x) == Some(Hit(k, p)) <==>
              k < Entries && EntryMatches(cfgs, addrs, k, x) && p == Decode(cfgs[k]).perms
              && forall j :: 0 <= j < k ==> !EntryMatches(cfgs, addrs, j, x)
    ensures Match(cfgs, addrs, x).None? <==> forall j :: 0 <= j < Entries ==> !EntryMatches(cfgs, addrs, j, x)
  {
  }

  /** Whether entry i decides the same way in two tables: its own byte and register, and its predecessor's register. */
  lemma EntryMatchesLocal(cfgs: seq<nat>, addrs: seq<nat>, cfgs': seq<nat>, addrs': seq<nat>, i: nat, x: nat)
    requires WellFormed(cfgs, addrs) && WellFormed(cfgs', addrs') && i < Entries
    requires cfgs'[i] == cfgs[i] && addrs'[i] == addrs[i]
    requires i > 0 ==> addrs'[i - 1] == addrs[i - 1]
    ensures EntryMatches(cfgs', addrs', i, x) == EntryMatches(cfgs, addrs, i, x)
  {
  }

  /**
   * Entries above the selected one have no effect: any table that agrees on
   * entries 0..k (configuration bytes and address registers) selects the
   * same entry k with the same permissions.
   */
  lemma MatchIgnoresLaterEntries(cfgs: seq<nat>, addrs: seq<nat>, cfgs': seq<nat>, addrs': seq<nat>, x: nat)
    requires WellFormed(cfgs, addrs) && WellFormed(cfgs', addrs')
    requires Match(cfgs, addrs, x).Some?
    requires cfgs'[..Match(cfgs, addrs, x).value.index + 1] == cfgs[..Match(cfgs, addrs, x).value.index + 1]
    requires addrs'[..Match(cfgs, addrs, x).value.index + 1] == addrs[..Match(cfgs, addrs, x).value.index + 1]
    ensures Match(cfgs', addrs', x) == Match(cfgs, addrs, x)
  {
    var h := Match(cfgs, addrs, x).value;
    var k := h.index;
    forall j | 0 <= j <= k
      ensures EntryMatches(cfgs', addrs', j, x) == EntryMatches(cfgs, addrs, j, x)
    {
      assert cfgs'[j] == cfgs'[..k + 1][j];
      assert addrs'[j] == addrs'[..k + 1][j];
      if j > 0 {
        assert addrs'[j - 1] == addrs'[..k + 1][j - 1];
      }
      EntryMatchesLocal(cfgs, addrs, cfgs', addrs', j, x);
    }
    assert cfgs'[k] == cfgs'[..k + 1][k];
    MatchIsFirst(cfgs, addrs, x, k, h.perms);
    MatchIsFirst(cfgs', addrs', x, k, h.perms);
  }

  // ---------------------------------------------------------------------
  // Disabled entries
  // ---------------------------------------------------------------------

  /** An OFF entry never matches, whatever its address register holds. */
  lemma OffNeverMatches(cfgs: seq<nat>, addrs: seq<nat>, i: nat, x: nat)
    requires WellFormed(cfgs, addrs) && i < Entries
    requires Decode(cfgs[i]).mode == Off
    ensures !EntryMatches(cfgs, addrs, i, x)
  {
  }

  /**
   * A disabled entry is skipped rather than blocking: the scan from an OFF
   * entry is always the scan from the entry after it, and when that next entry is
   * not TOR (the one mode that reads the previous register) the OFF entry's
   * address register can be anything without changing the selected entry.
   */
  lemma {:induction false} OffEntryTransparent(cfgs: seq<nat>, addrs: seq<nat>, i: nat, v: nat, x: nat)
    requires WellFormed(cfgs, addrs) && i < Entries
    requires Decode(cfgs[i]).mode == Off
    ensures MatchFrom(cfgs, addrs, x, i) == MatchFrom(cfgs, addrs, x, i + 1)
    ensures (i + 1 < Entries ==> Decode(cfgs[i + 1]).mode != Tor) ==>
              Match(cfgs, addrs[i := v], x) == Match(cfgs, addrs, x)
  {
    if i + 1 < Entries ==> Decode(cfgs[i + 1]).mode != Tor {
      var addrs' := addrs[i := v];
      forall j | 0 <= j < Entries
        ensures EntryMatches(cfgs, addrs', j, x) == EntryMatches(cfgs, addrs, j, x)
      {
        if j != i && j != i + 1 {
          EntryMatchesLocal(cfgs, addrs, cfgs, addrs', j, x);
        }
      }
      SameEntriesSameScan(cfgs, addrs, addrs', x, 0);
    }
  }

  /** Two tables whose entries match the same addresses scan alike. */
  lemma {:induction false} SameEntriesSameScan(cfgs: seq<nat>, addrs: seq<nat>, addrs': seq<nat>, x: nat, i: nat)
    requires WellFormed(cfgs, addrs) && WellFormed(cfgs, addrs') && i <= Entries
    requires forall j :: 0 <= j < Entries ==> EntryMatches(cfgs, addrs', j, x) == EntryMatches(cfgs, addrs, j, x)
    ensures MatchFrom(cfgs, addrs', x, i) == MatchFrom(cfgs, addrs, x, i)
    decreases Entries - i
  {
    if i < Entries {
      SameEntriesSameScan(cfgs, addrs, addrs', x, i + 1);
    }
  }

  // ---------------------------------------------------------------------
  // Per-mode ranges
  // ---------------------------------------------------------------------

  /**
   * A TOR entry i matches exactly [lower, a*4), lower being 0 for entry 0 and
   * the previous register shifted left by 2 otherwise, whatever mode entry
   * i-1 has; an empty or inverted range matches nothing.
   */
  lemma TorRange(cfgs: seq<nat>, addrs: seq<nat>, i: nat, x: nat)
    requires WellFormed(cfgs, addrs) && i < Entries
    requires Decode(cfgs[i]).mode == Tor
    ensures EntryMatches(cfgs, addrs, i, x) <==> TorLower(addrs, i) <= x < addrs[i] * 4
    ensures i == 0 ==> (EntryMatches(cfgs, addrs, i, x) <==> x < addrs[0] * 4)
    ensures i > 0 ==> (EntryMatches(cfgs, addrs, i, x) <==> addrs[i - 1] * 4 <= x < addrs[i] * 4)
    ensures TorLower(addrs, i) >= addrs[i] * 4 ==> !EntryMatches(cfgs, addrs, i, x)
  {
  }

  /** A TOR entry's range does not depend on the previous entry's configuration byte (its mode included). */
  lemma TorIgnoresPreviousConfig(cfgs: seq<nat>, addrs: seq<nat>, i: nat, c: nat, x: nat)
    requires WellFormed(cfgs, addrs) && 0 < i < Entries
    requires Decode(cfgs[i]).mode == Tor
    ensures EntryMatches(cfgs[i - 1 := c], addrs, i, x) == EntryMatches(cfgs, addrs, i, x)
  {
  }

  /** An NA4 entry with register a matches exactly the four bytes a*4 .. a*4+3. */
  lemma Na4Range(cfgs: seq<nat>, addrs: seq<nat>, i: nat, x: nat)
    requires WellFormed(cfgs, addrs) && i < Entries
    requires Decode(cfgs[i]).mode == Na4
    ensures EntryMatches(cfgs, addrs, i, x) <==> addrs[i] * 4 <= x <= addrs[i] * 4 + 3
    ensures EntryMatches(cfgs, addrs, i, addrs[i] * 4) && EntryMatches(cfgs, addrs, i, addrs[i] * 4 + 3)
    ensures !EntryMatches(cfgs, addrs, i, addrs[i] * 4 + 4)
  {
  }

  /**
   * The NAPOT region of register a with t trailing ones: 2^(t+3) bytes,
   * aligned to its own size, holding a*4; a*4 lies 4 bytes below the
   * region's midpoint, which is how the encoding names a region.
   */
  lemma NapotRegion(a: nat)
    ensures NapotSize(a) == Pow2(TrailingOnes(a) + 3)
    ensures NapotBase(a) % NapotSize(a) == 0
    ensures NapotBase(a) <= a * 4 < NapotBase(a) + NapotSize(a)
    ensures a * 4 == NapotBase(a) + 4 * (Pow2(TrailingOnes(a)) - 1)
    ensures a * 4 + 4 == NapotBase(a) + NapotSize(a) / 2
  {
    var t := TrailingOnes(a);
    var size, v := NapotSize(a), a * 4;
    NapotLowBits(a);
    DivModUnique(NapotBase(a), size, v / size, 0);
    DivModUnique(v, size, v / size, v % size);
    assert Pow2(t + 3) == 2 * Pow2(t + 2) == 4 * Pow2(t + 1) == 8 * Pow2(t);
  }

  /** The low t+3 bits of a*4 are t ones shifted left by 2. */
  lemma NapotLowBits(a: nat)
    ensures (a * 4) % NapotSize(a) == 4 * (Pow2(TrailingOnes(a)) - 1)
  {
    var t := TrailingOnes(a);
    var p := Pow2(t + 1);
    assert NapotSize(a) == 4 * p by {
      assert Pow2(t + 3) == 2 * Pow2(t + 2);
    }
    DivModUnique(a * 4, 4, a, 0);
    DivDiv(a * 4, 4, p);
    assert (a * 4) % (4 * p) == 4 * (a % p);
    TrailingOnesLowBits(a);
    assert a % p == Pow2(t) - 1;
  }

  /**
   * Address x is in the NAPOT region of register a iff it lies in the same
   * size-aligned block as a*4.
   */
  lemma NapotContains(a: nat, x: nat)
    ensures NapotBase(a) <= x < NapotBase(a) + NapotSize(a) <==> x / NapotSize(a) == (a * 4) / NapotSize(a)
  {
    AlignDownBlock(a * 4, NapotSize(a), x);
  }

  /**
   * A NAPOT entry with register a matches exactly the region of NapotRegion:
   * the block of NapotSize(a) bytes that holds a*4.
   */
  lemma NapotRange(cfgs: seq<nat>, addrs: seq<nat>, i: nat, x: nat)
    requires WellFormed(cfgs, addrs) && i < Entries
    requires Decode(cfgs[i]).mode == Napot
    ensures EntryMatches(cfgs, addrs, i, x) <==> x / NapotSize(addrs[i]) == (addrs[i] * 4) / NapotSize(addrs[i])
    ensures EntryMatches(cfgs, addrs, i, NapotBase(addrs[i]) + NapotSize(addrs[i]) - 1)
    ensures NapotBase(addrs[i]) > 0 ==> !EntryMatches(cfgs, addrs, i, NapotBase(addrs[i]) - 1)
  {
    NapotContains(addrs[i], x);
  }

  /**
   * The address register value that names the NAPOT region of 2^(k+3) bytes
   * at a base aligned to that size: the base shifted right by 2 with k low
   * ones (the standard pmpaddr encoding).
   */
  function NapotAddress(base: nat, k: nat): nat
    requires base % Pow2(k + 3) == 0
  {
    base / 4 + Pow2(k) - 1
  }

  /** Decoding the register NapotAddress(base, k) gives back that very region. */
  lemma NapotRoundTrip(base: nat, k: nat)
    requires base % Pow2(k + 3) == 0
    ensures TrailingOnes(NapotAddress(base, k)) == k
    ensures NapotSize(NapotAddress(base, k)) == Pow2(k + 3)
    ensures NapotBase(NapotAddress(base, k)) == base
  {
    var a := NapotAddress(base, k);
    var size, p := Pow2(k + 3), Pow2(k + 1);
    assert size == 4 * p by {
      assert Pow2(k + 3) == 2 * Pow2(k + 2);
    }
    assert p == 2 * Pow2(k);
    var m := base / size;
    DivModUnique(base, size, m, base % size);
    DivModUnique(base, 4, m * p, 0);
    DivModUnique(a, p, m, Pow2(k) - 1);
    TrailingOnesCharacterised(a, k);
    NapotRegion(a);
  }

  // ---------------------------------------------------------------------
  // The scan as the checker runs it
  // ---------------------------------------------------------------------

  /**
   * The checker's loop over entries 0..63: decode the byte, skip OFF
   * entries and empty TOR ranges, compute the mode's range and stop at the
   * first entry whose range holds the address.
   */
  method FindMatch(cfgs: seq<nat>, addrs: seq<nat>, address: nat) returns (matching: Option<Hit>)
    requires WellFormed(cfgs, addrs)
    ensures matching == Match(cfgs, addrs, address)
  {
    matching := None;
    for i := 0 to Entries
      invariant matching == None
      invariant Match(cfgs, addrs, address) == MatchFrom(cfgs, addrs, address, i)
    {
      var c := Decode(cfgs[i]);
      if c.mode == Off {
        continue;
      }
      var pmpaddrVal := addrs[i] * 4;
      var lower, upper;
      if c.mode == Tor {
        if i == 0 {
          lower, upper := 0, pmpaddrVal;
        } else {
          lower, upper := addrs[i - 1] * 4, pmpaddrVal;
        }
        if lower >= upper {
          continue;
        }
      } else if c.mode == Na4 {
        lower, upper := pmpaddrVal, pmpaddrVal + 4;
      } else {
        var trailingOnes := CountTrailingOnes(addrs[i]);
        var size := Pow2(trailingOnes + 3);
        var base := AlignDown(pmpaddrVal, size);
        assert base == NapotBase(addrs[i]) && size == NapotSize(addrs[i]);
        lower, upper := base, base + size;
      }
      if address >= lower && address < upper {
        matching := Some(Hit(i, c.perms));
        break;
      }
    }
  }
}
