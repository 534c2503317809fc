# PMP access checker, modelled in Dafny

This project models a Physical Memory Protection (PMP) checker, following
section 3.7 of the RISC-V Privileged Architecture, version 1.12. The checker
takes 64 configuration bytes (`pmpNcfg`), 64 address registers (`pmpaddrN`),
a physical address, a privilege mode token and an operation token. It
answers "Access Fault" or "No Access Fault".

The model follows the checker's four parts:

- `Bits` (bits.dfy) covers `count_trailing_ones`. It has a method with the
  original loop (`CountTrailingOnes`) and a recursive specification
  (`TrailingOnes`). A lemma characterises that specification by the low bits
  of its argument. Python's shifts and masks on unbounded integers become
  division and remainder by powers of two on `nat`.
- `PmpConfig` (pmp_config.dfy) decodes a configuration byte into an address
  mode (OFF, TOR, NA4, NAPOT) and the (L, R, W, X) permissions. `Encode`
  writes a byte from those fields. It is not in the source; it exists as the
  inverse that the decoding is checked against.
- `PmpMatch` (pmp_match.dfy) is the region matcher. `EntryMatches` gives the
  per-mode range test. `MatchFrom` and `Match` are the first-match scan as a
  function, and `FindMatch` is the checker's `for` loop with `continue` and
  `break`, proved equal to `Match`. `NapotAddress` builds the address
  register that names a given NAPOT region (the standard encoding). It is not
  in the source either; it is the inverse that the NAPOT decoding is checked
  against.
- `PmpResolve` (pmp_resolve.dfy) is the permission resolver. `Resolve` makes
  the decision from the match, the mode token and the operation token.
- `PmpChecker` (pmp_checker.dfy) glues them together. `LoadSnapshot` splits
  the 128 values and rejects any other count. `CheckAccess` scans and then
  resolves, and `AccessVerdict` is its specification. The module also holds
  the whole-table lemmas.

Mode and operation stay string tokens, as in the source. Any mode other
than `"M"` behaves like S or U. Any operation other than `"R"`, `"W"` or
`"X"` faults unless machine mode makes the operation irrelevant.

In hardware an address register and a configuration byte have fixed
widths. The code applies no width: it decodes bits 0..4 and 7 of whatever
integer it reads, and it shifts the whole address register. The model
follows the code and takes any `nat`. `EncodeDecode` states which bits of a
configuration value the decoding reads.

## Model

| member | source | states |
|---|---|---|
| Bits.TrailingOnes | submissions/Hafsa-shoaib989/pmp_checker.py:4-11 | the count t of low 1 bits of n (0 for even n and for 0); its contract bounds it by 2^t <= n + 1, so t never exceeds the bit width of n; TrailingOnesCharacterised characterises it exactly and CountTrailingOnes computes it |
| Bits.CountTrailingOnes | submissions/Hafsa-shoaib989/pmp_checker.py:4-11 | the loop (and its early return for 0) yields TrailingOnes(n), and the result t satisfies n mod 2^(t+1) == 2^t - 1: the low t bits are 1 and bit t is 0 |
| Bits.TrailingOnesCharacterised | submissions/Hafsa-shoaib989/pmp_checker.py:4-11 | for every k: n mod 2^(k+1) == 2^k - 1 holds iff k is the trailing-ones count of n, so the count exists and is unique |
| Bits.AlignDown | submissions/Hafsa-shoaib989/pmp_checker.py:91 | the cleared value is a multiple of size, lies in (v - size, v], and differs from v by exactly v mod size (the low bits) |
| PmpConfig.Decode | submissions/Hafsa-shoaib989/pmp_checker.py:52-56 | the decoder: its contract reads the A field from bits 4..3 as 2*bit4 + bit3; DecodeFields places every field, and DecodeEncode / EncodeDecode show it is the inverse of Encode |
| PmpConfig.DecodeFields | submissions/Hafsa-shoaib989/pmp_checker.py:52-56 | L is bit 7, A is bits 4..3 (2*bit4 + bit3), X is bit 2, W is bit 1, R is bit 0 of the configuration value |
| PmpConfig.DecodeEncode | submissions/Hafsa-shoaib989/pmp_checker.py:52-56 | decoding the byte built from any mode and (L, R, W, X) gives those fields back |
| PmpConfig.EncodeDecode | submissions/Hafsa-shoaib989/pmp_checker.py:52-56 | re-encoding a decoded value gives back its bits 0..4 and bit 7 only; bits 5, 6 and above 7 play no part |
| PmpMatch.EntryMatches | submissions/Hafsa-shoaib989/pmp_checker.py:58-95 | the per-entry range test: a matching entry is never OFF, and a NAPOT entry matches x iff x lies in the same size-aligned block as a*4; TorRange, Na4Range and NapotRange give each mode's exact range |
| PmpMatch.Match | submissions/Hafsa-shoaib989/pmp_checker.py:48-95 | the matcher: a result is an entry below 64 that matches, carries its own permissions and has no matching entry below it; no result means no entry matches; MatchIsFirst gives the converse |
| PmpMatch.MatchFrom | submissions/Hafsa-shoaib989/pmp_checker.py:48-95 | a scan result from entry i names an entry at or after i that matches, carries that entry's permissions, and no entry between i and it matches; no result means no entry from i on matches |
| PmpMatch.MatchIsFirst | submissions/Hafsa-shoaib989/pmp_checker.py:48-95 | Match returns entry k with permissions p iff k matches, p are k's permissions and no lower entry matches; it returns nothing iff no entry matches |
| PmpMatch.EntryMatchesLocal | submissions/Hafsa-shoaib989/pmp_checker.py:50-95 | whether entry i matches depends only on its own byte and register and on register i-1 |
| PmpMatch.MatchIgnoresLaterEntries | submissions/Hafsa-shoaib989/pmp_checker.py:48-95 | once entry k is selected, any table equal on entries 0..k selects the same entry with the same permissions; higher entries have no effect |
| PmpMatch.OffNeverMatches | submissions/Hafsa-shoaib989/pmp_checker.py:58-59 | an entry whose A field is 0 (OFF) matches no address |
| PmpMatch.OffEntryTransparent | submissions/Hafsa-shoaib989/pmp_checker.py:58-59 | an OFF entry is skipped, not blocking: the scan from it always equals the scan from the next entry, whatever that entry's mode; and when the next entry is not TOR the OFF entry's register can be changed without changing the selected entry |
| PmpMatch.TorRange | submissions/Hafsa-shoaib989/pmp_checker.py:65-79 | a TOR entry i matches x iff lower <= x < addrs[i]*4, with lower 0 for i == 0 and addrs[i-1]*4 otherwise; an empty or inverted range matches nothing |
| PmpMatch.TorIgnoresPreviousConfig | submissions/Hafsa-shoaib989/pmp_checker.py:69-72 | a TOR entry's range does not change when entry i-1's configuration byte (its mode included) changes |
| PmpMatch.Na4Range | submissions/Hafsa-shoaib989/pmp_checker.py:81-86 | an NA4 entry with register a matches exactly a*4 .. a*4+3; a*4 and a*4+3 match, a*4+4 does not |
| PmpMatch.NapotRegion | submissions/Hafsa-shoaib989/pmp_checker.py:88-92 | for register a with t trailing ones: size is 2^(t+3), base is a multiple of size, base <= a*4 < base+size, and a*4 + 4 is the region's midpoint |
| PmpMatch.NapotContains | submissions/Hafsa-shoaib989/pmp_checker.py:88-95 | x lies in [base, base+size) iff x and a*4 fall in the same size-aligned block (x / size == a*4 / size) |
| PmpMatch.NapotRange | submissions/Hafsa-shoaib989/pmp_checker.py:88-95 | a NAPOT entry matches x iff x / size == a*4 / size; base+size-1 matches and base-1 does not |
| PmpMatch.NapotRoundTrip | submissions/Hafsa-shoaib989/pmp_checker.py:88-92 | for any base aligned to 2^(k+3), the register base/4 + 2^k - 1 has k trailing ones and decodes to exactly that base and size |
| PmpMatch.FindMatch | submissions/Hafsa-shoaib989/pmp_checker.py:47-95 | the loop over entries 0..63, with continue for OFF entries and empty TOR ranges and break at the first hit, returns exactly Match |
| PmpResolve.Resolve | submissions/Hafsa-shoaib989/pmp_checker.py:98-120 | the resolver: an allowed access is in mode "M" or has a match whose R/W/X bit grants the operation (Grants), and mode "M" with no match or an unlocked match is always allowed; ResolveNoMatch, ResolveMatched and ResolveUnknownOperation give the rest of the rule table |
| PmpResolve.ResolveNoMatch | submissions/Hafsa-shoaib989/pmp_checker.py:114-120 | with no matching entry, the access is allowed iff the mode is "M" |
| PmpResolve.ResolveMatched | submissions/Hafsa-shoaib989/pmp_checker.py:98-113 | with a match, mode "M" on an unlocked entry is allowed whatever R/W/X hold; otherwise the access is allowed iff the entry's R, W or X bit grants the operation |
| PmpResolve.ResolveUnknownOperation | submissions/Hafsa-shoaib989/pmp_checker.py:104-111 | an operation token other than R, W, X is allowed iff the mode is "M" and there is no match or the match is unlocked |
| PmpResolve.ResolveNonMachine | submissions/Hafsa-shoaib989/pmp_checker.py:98-120 | outside "M" an access is allowed only by a matching entry that grants the operation, and all non-"M" mode tokens get the same verdict |
| PmpResolve.ResolveMachineDominates | submissions/Hafsa-shoaib989/pmp_checker.py:98-120 | anything allowed in some mode is allowed in mode "M" |
| PmpResolve.ResolveLockBit | submissions/Hafsa-shoaib989/pmp_checker.py:101-111 | locking never turns a fault into an allowed access and changes nothing outside "M"; a locked entry without R denies an "M" read; an unlocked entry allows it |
| PmpChecker.AccessVerdict | submissions/Hafsa-shoaib989/pmp_checker.py:47-120 | the verdict for one access: outside mode "M" it is allowed only when Match selects an entry that grants the operation; CheckAccess computes it, AllOffVerdict and PriorityVerdict are proved about it |
| PmpChecker.LoadSnapshot | submissions/Hafsa-shoaib989/pmp_checker.py:32-45 | a result exists iff there are exactly 128 values; the first 64 become the configuration bytes and the last 64 the address registers, in order |
| PmpChecker.CheckAccess | submissions/Hafsa-shoaib989/pmp_checker.py:47-120 | scanning then resolving gives AccessVerdict, i.e. Resolve applied to the permissions of Match |
| PmpChecker.CheckConfiguration | submissions/Hafsa-shoaib989/pmp_checker.py:32-120 | no verdict iff the value count is not 128; otherwise the verdict for the split snapshot |
| PmpChecker.AllOffVerdict | submissions/Hafsa-shoaib989/pmp_checker.py:97-120 | with every entry OFF, any access is allowed iff the mode is "M" |
| PmpChecker.PriorityVerdict | submissions/Hafsa-shoaib989/pmp_checker.py:47-113 | when entry k is the lowest matching entry, the verdict is the one k's permissions give, and changes above k leave it unchanged |
| PmpChecker.NapotScenario | submissions/Hafsa-shoaib989/pmp_checker.py:88-120 | entry 0 NAPOT over [0x1000, 0x1010) with R only (byte 0x19, register 0x401), rest OFF: an "S" read of 0x1004 is allowed, an "S" write faults, a "U" read of 0x1010 faults and an "M" read of 0x1010 is allowed |

## Left out

- Command-line handling (argument count, usage message, exit codes) is not modelled. It is process I/O.
- Reading the configuration file, stripping lines and the missing-file error are not modelled. They are I/O. `LoadSnapshot` takes the values already read.
- Hexadecimal parsing (`int(s, 16)`) of the address and the 128 values is not modelled. It is a library call. All inputs are `nat`s that are already decoded.
- Negative numbers are not modelled. `int(s, 16)` accepts a leading "-", but every input here is a `nat`. With a negative NAPOT address register the source never finishes: `count_trailing_ones(-1)` loops forever, because `-1 & 1 == 1` and `-1 >> 1 == -1`. A negative configuration value would decode through two's complement.
- Printing is not modelled. The verdict is the `Verdict` datatype, whose two constructors stand for the two printed strings.
- Python's bitwise operators are not modelled bit by bit. `x << 2` is `x * 4`, `(x >> k) & m` is `(x / 2^k) % (m+1)`, and `v & ~(size-1)` with a power-of-two `size` is `(v / size) * size`. Python integers are unbounded, so no width or wrap-around applies.
- FindMatch: each mode's branch computes lower and upper bounds, and one range test follows. The source repeats that test inside each branch. The outcome is the same.
- Idempotence (the same query twice gives the same verdict) is not stated. Every member here is a function of its inputs, or a method proved equal to one, so it holds by construction.
