# hook: a verified model of an x86 code-patching library

This project models the core of `hook`, a small C++ library for patching the
code of a running 32-bit Windows process. The library finds code by signature
and rewrites it in place. The model covers these parts of it:

- **Signature compiler** (`Signature`). Turns IDA-style text such as
  `"8B 45 ?? 89"` into a byte string and a parallel mask, where `x` means the
  byte must match and `?` means any byte will do.
- **Signature scanner** (`Scanner`). The Horspool-style bad-character search of
  `Pattern::EnsureMatches`. It is proved to return exactly the matching windows
  of the range, in ascending order, cut short where the match limit stops it.
- **`Pattern` object** (`Patterns`). The memoised match list and its queries
  (`Count`, `CountHint`, `Clear`, `Size`, `Empty`, `Get`, `GetOne`,
  `GetFirst`), `PatternMatch::Get`, `SetBase` and the x86 `GetRVA`.
- **Patch primitives** (`Hook`). Each is stated as the exact new memory it
  leaves: which bytes change, and that no other byte does. This covers
  typed writes with elision, fills and NOPs, return stubs, relative
  displacements, branch decoding and encoding (E8, E9, EB, FF 15, FF 25), and
  `AdjustPointer`.
- **Inline injection** (`Assembly`). The `RegPack` register and flag layout,
  and the bytes `MakeInline` writes.
- **`MemoryPointer`** (`MemoryPointers`). A wrapping 32-bit address value.
- **Static hook installers** (`HookFunctions`). The intrusive registration
  list and its walk.

`Machine` holds the shared vocabulary:

- bytes and 32-bit words;
- wrap-around arithmetic modulo 2^32 (`Wrap`, `Offset`);
- little-endian encoding;
- the process memory, a sequence of 2^32 bytes.

In-place operations take that memory as an `array<byte>`. Each one ensures
that `mem[..]` equals a specification function of the old contents, built
from `Machine.Store`.

Where the code and its comments disagree, the model follows the code:

- The comment of `AdjustPointer` (hook/Hook.hpp:90) speaks of the range
  `[addr, addr + maxSearch]`, but the loop stops before `maxSearch`. The
  model checks offsets `0 .. maxSearch - 1`.
- `IsNull` is documented as "true if the underlying pointer is a nullptr", but
  it returns the opposite. See Findings.

## Model

| member | source | states |
|---|---|---|
| `Signature.HexValue` | hook/Pattern.cpp:33-40 | A hex digit of either case has a value below 16, and the digit is the upper- or lower-case spelling of that value |
| `Signature.HexRoundTrip` | hook/Pattern.cpp:33-40 | Reading back the upper- or lower-case digit of a nibble gives the nibble |
| `Signature.Step` | hook/Pattern.cpp:44-70 | One iteration of the compiler loop keeps the pending digit confined to the high nibble, which is what makes the OR that completes a byte exact |
| `Signature.OrNibble` | hook/Pattern.cpp:64 | `tempDigit \|= thisDigit` on a pending high nibble gives the byte whose high nibble is the pending one and whose low nibble is the digit |
| `Bits.OrOfDisjointBits` | hook/Pattern.cpp:64 | Bitwise OR of a value with its low k bits clear and a value below 2^k is their sum |
| `Bits.OrIsSum` | hook/Pattern.cpp:59-64 | ORing a digit below 16 into a byte shifted left by 4 is the sum |
| `Signature.TransformPattern` | hook/Pattern.cpp:28-72 | The loop leaves exactly the data and mask of the character-by-character run; they have equal length and the mask holds only `x` and `?` |
| `Signature.RunConsistent` | hook/Pattern.cpp:42-71 | The output has one wildcard per `?` and one exact byte per complete pair of hex digits. The data under `?` is 0. A digit is pending iff the count of hex digits is odd, so a trailing unpaired digit is dropped |
| `Signature.PendingSurvives` | hook/Pattern.cpp:44-52 | A pending high nibble survives any text without hex digits, and each `?` in that text emits a zero wildcard byte |
| `Signature.CaseInsensitive` | hook/Pattern.cpp:33-40 | Upper-casing the hex letters of the text does not change the compiled signature |
| `Signature.CompileRender` | hook/Pattern.cpp:28-72 | Every well-formed signature is the compilation of its own text rendering (round trip) |
| `Scanner.LastWildSpec` | hook/Pattern.cpp:139 | `find_last_of('?')`: the result is a wildcard index with no wildcard after it, or -1 when there is none |
| `Scanner.LastIndexSpec` | hook/Pattern.cpp:145-151 | The last index holding byte b, with none after it, or -1 |
| `Scanner.LastTableSound` | hook/Pattern.cpp:141-151 | For every byte b, `Last[b]` is at least the last wildcard index and at least every index holding b, and equals one of them |
| `Scanner.BuildLast` | hook/Pattern.cpp:141-151 | The fill-then-raise loop over the pattern builds exactly that table |
| `Scanner.Skip` | hook/Pattern.cpp:174 | `max(1, j - Last[b])` always advances by at least one, which makes the scan terminate |
| `Scanner.SkipIsSafe` | hook/Pattern.cpp:171-175 | No window that the mismatch shift jumps over can match |
| `Scanner.CompareWindow` | hook/Pattern.cpp:156-159 | The right-to-left compare returns -1 iff the window matches; otherwise it returns the rightmost mismatch: a non-wildcard index holding a mismatching byte, with every position above it matching |
| `Scanner.AdvanceAfterMatch` | hook/Pattern.cpp:161-170 | After a match the offset moves by exactly 1, and that window is the next entry of the match list |
| `Scanner.AdvanceAfterMismatch` | hook/Pattern.cpp:171-175 | After a mismatch the window does not match, and the shift skips no match |
| `Scanner.Step` | hook/Pattern.cpp:155-175 | One loop iteration reports a hit iff the window matches and advances so that the matches below the new offset are the old ones plus this window |
| `Scanner.Scan` | hook/Pattern.cpp:153-176 | The scan returns exactly the ascending list of matching windows in the range, cut after the match that brings the total to `maxCount` |
| `Scanner.Truncate` | hook/Pattern.cpp:129-134 | The stop rule keeps a prefix of the matches: exactly `maxCount - already` of them when that many exist, and all of them when the limit is never hit exactly |
| `Scanner.MatchesBetweenExact` | hook/Pattern.cpp:153-165 | Soundness and completeness: the list holds exactly the matching window starts of the range |
| `Scanner.MatchesBetweenAscending` | hook/Pattern.cpp:161-175 | The match list is strictly ascending |
| `Scanner.OverlappingMatches` | hook/Pattern.cpp:161-170 | Overlapping matches are found: `AA AA` occurs twice in `AA AA AA` |
| `Scanner.AllMatchesInRange` | hook/Pattern.cpp:153 | With the intended bound, every reported window lies wholly inside `[begin, end)` |
| `Scanner.ScanLimitAsWritten` | hook/Pattern.cpp:153 | The unsigned `end - maskSize` as written: exact when `maskSize <= end`, and 2^32 too large otherwise |
| `Scanner.ScanLimitWraps` | hook/Pattern.cpp:153 | For a range ending at 2 and a 3-byte pattern, the bound as written wraps to `0xFFFFFFFF`, while the intended bound is negative |
| `Scanner.CountVerdict` | hook/Pattern.hpp:80-85 | Scanning with limit n leaves n matches iff at least n exist (for n = 0: iff none exists) |
| `Patterns.PatternMatch.Get` | hook/Pattern.hpp:59-64 | The match address displaced by a signed offset, modulo 2^32; exact when it stays in range |
| `Patterns.Pattern.ForModule` | hook/Pattern.hpp:157-162 | A module pattern holds the compiled text, the module base, a zero range end and no matches |
| `Patterns.Pattern.ForRange` | hook/Pattern.hpp:168-173 | A range pattern holds the compiled text, the explicit range and no matches |
| `Patterns.Pattern.Executable` | hook/Pattern.cpp:126-127 | The explicit range `[begin, end)` is used iff both ends are non-zero; otherwise the module's code section is used |
| `Patterns.Pattern.EnsureMatches` | hook/Pattern.cpp:118-179 | Does nothing once matched. Otherwise it appends the truncated scan of the range and marks the pattern matched |
| `Patterns.Pattern.ConsiderMatch` | hook/Pattern.cpp:181-204 | Returns true and appends the offset iff every non-wildcard position matches; otherwise leaves the list unchanged |
| `Patterns.Pattern.Count` | hook/Pattern.hpp:80-85 | Scans with limit `expected`; the verdict of the assert is whether exactly `expected` matches are held |
| `Patterns.FreshCountVerdict` | hook/Pattern.hpp:80-85 | On a fresh pattern, Count(n) succeeds iff at least n matches exist. The kept matches are genuine and ascending |
| `Patterns.Pattern.CountHint` | hook/Pattern.hpp:87-91 | The same scan as Count, with no verdict |
| `Patterns.Pattern.Clear` | hook/Pattern.hpp:93-98 | Empties the list and resets the matched flag, so the next query rescans |
| `Patterns.Pattern.Size` | hook/Pattern.hpp:100-104 | The number of matches after an unlimited scan, or of the cached list when a scan has already run |
| `Patterns.Pattern.Empty` | hook/Pattern.hpp:106 | True iff the match list is empty |
| `Patterns.Pattern.Get` | hook/Pattern.hpp:108-112 | The index-th match of the (possibly cached) list; the index must be below the size |
| `Patterns.Pattern.GetOne` | hook/Pattern.hpp:114 | The single match after Count(1); none when Count's assert would fire |
| `Patterns.Pattern.GetFirst` | hook/Pattern.hpp:116-120 | The single match displaced by the offset; none when Count's assert would fire |
| `Patterns.BaseDifference` | hook/Pattern.hpp:26-36 | `address - 0x400000`, reinterpreted as a signed word, lies in the signed range and adds back to `address` modulo 2^32 |
| `Patterns.ImageBase.SetBase` | hook/Pattern.hpp:26-36 | Stores that difference in the global |
| `Patterns.ImageBase.GetRVA` | hook/Pattern.hpp:41-50 | After SetBase to the process base, the result is `processBase + rva` modulo 2^32 |
| `Hook.ReadAfterStore` | hook/Hook.hpp:61-65 | Read<T> of w bytes just written gives the written value back |
| `Machine.ReadU` | hook/Hook.hpp:61-65 | Read<T> of an unsigned w-byte value: the result is below 256^w |
| `Machine.ReadUBytes` | hook/Hook.hpp:61-65 | The value read is the one whose little-endian encoding is exactly the w bytes at the address |
| `Hook.PointerAt` | hook/Hook.hpp:98 | `Read<void*>(addr + i)`: the 4-byte word at `addr + i`, wrapping; its bytes are given by `ReadUBytes` |
| `Hook.MemCpy` | hook/Hook.hpp:73-77 | The source bytes land at `addr`, `addr + 1`, ...; no other byte changes |
| `Hook.Write` | hook/Hook.hpp:79-88 | Memory is unchanged when the value is already there. Otherwise exactly the w bytes at `addr` become the value, little-endian, and a read returns it |
| `Hook.Fill` | hook/Hook.hpp:67-71 | Exactly `[addr, addr + size)` becomes the low byte of the value; a size of 0 changes nothing |
| `Hook.ZeroMem` | hook/Hook.hpp:121-124 | Exactly `[at, at + count)` becomes 0 |
| `Hook.MakeNop` | hook/Hook.hpp:126-129 | Exactly `[at, at + count)` becomes 0x90 |
| `Hook.MakeRangedNop` | hook/Hook.hpp:131-134 | Exactly `until - at` bytes from `at` become 0x90; the count wraps when `until < at` |
| `Hook.MakeRet` | hook/Hook.hpp:137-140 | Writes `C3` at `at` and nothing else |
| `Hook.MakeRetPop` | hook/Hook.hpp:143-147 | Writes `C2` then the 16-bit pop count, little-endian |
| `Hook.MakeRETEx` | hook/Hook.hpp:149-154 | Writes `B0 r C2 04 00` |
| `Hook.MakeRet0` | hook/Hook.hpp:157-162 | Writes `33 C0 C3` |
| `Hook.GetAbsoluteOffset` | hook/Hook.hpp:164-167 | The target lies `relValue` bytes after the end of the instruction, modulo 2^32 |
| `Hook.GetRelativeOffset` | hook/Hook.hpp:169-172 | Round trip: applying the displacement it computes to the same end of instruction gives `absValue` back |
| `Hook.ReadRelativeOffset` | hook/Hook.hpp:174-187 | For widths 1, 2 and 4, the signed displacement in the field, counted from the end of the field; null for any other width |
| `Hook.MakeRelativeOffset` | hook/Hook.hpp:189-203 | Stores the displacement truncated to w bytes; any other width changes nothing |
| `Hook.DisplacementRoundTrip` | hook/Hook.hpp:174-203 | A displacement that fits in w signed bytes, truncated and sign-extended again, reaches the same target |
| `Hook.RelativeRoundTrip` | hook/Hook.hpp:174-203 | MakeRelativeOffset then ReadRelativeOffset gives `dest` back whenever the displacement fits |
| `Hook.FitsRel32` | hook/Hook.hpp:199-200 | Every 32-bit displacement fits a rel32 field |
| `Hook.GetBranchDestination` | hook/Hook.hpp:205-227 | The branch target of the instruction at `at`; what it decodes is stated by `BranchDecoding` and `IndirectBranchDecoding` |
| `Hook.BranchDecoding` | hook/Hook.hpp:205-227 | E8/E9 decode a rel32 counted from `at + 5`, and EB a rel8 counted from `at + 2`. Unknown opcodes and unknown FF forms decode to null |
| `Hook.IndirectBranchDecoding` | hook/Hook.hpp:215-224 | FF 15 and FF 25 decode to the 4-byte value stored at the address that the operand at `at + 2` holds |
| `Hook.BranchRoundTrip` | hook/Hook.hpp:205-267 | A branch written with a non-null destination decodes back to it, when the displacement fits |
| `Hook.NullDestinationKeepsOperand` | hook/Hook.hpp:230-241 | With a null destination, only the opcode byte changes |
| `Hook.PatchBranch` | hook/Hook.hpp:230-267 | Returns the destination decoded before patching. Writes the opcode, then the displacement only when `dest != 0` |
| `Hook.MakeJmp` | hook/Hook.hpp:230-241 | Returns the old destination and writes `E9 rel32`; a non-null `dest` decodes back |
| `Hook.MakeCall` | hook/Hook.hpp:243-254 | Returns the old destination and writes `E8 rel32`; a non-null `dest` decodes back |
| `Hook.MakeShortJmp` | hook/Hook.hpp:256-267 | Returns the old destination and writes `EB rel8`; `dest` decodes back when it is within rel8 reach |
| `Hook.FirstHit` | hook/Hook.hpp:96-100 | The first offset below n whose pointer lies in `[defaultBase, defaultEnd]`, or -1; none before it does |
| `Hook.FirstHitIsFirst` | hook/Hook.hpp:96-104 | A hit at i with none before it is the first hit of any longer search |
| `Hook.Relocate` | hook/Hook.hpp:101 | The new pointer is as far from `replacementBase` as the old one was from `defaultBase` |
| `Hook.AdjustPointer` | hook/Hook.hpp:92-107 | Rewrites the first in-window pointer among offsets `0 .. maxSearch - 1` to its relocated value, which it returns; with none, returns null and changes nothing |
| `Assembly.RegName.Slot` | hook/Assembly.hpp:25-35 | Every register names one of the eight slots |
| `Assembly.EfFlag.Position` | hook/Assembly.hpp:37-46 | Every flag is a bit of the 32-bit EFLAGS |
| `Assembly.FlagPositionsDistinct` | hook/Assembly.hpp:37-46 | No two flags share a bit |
| `Assembly.PushAllPrepends` | hook/Assembly.hpp:23-24 | Each push lands below the previous one, so the last register pushed is the first field |
| `Assembly.PushadLayout` | hook/Assembly.hpp:23-35 | The slot order edi, esi, ..., eax is exactly PUSHAD's frame read upward |
| `Assembly.RegPack.At` | hook/Assembly.hpp:64-65 | `operator[]`: slot i; `SetAt` states that it holds what was assigned and every other slot is unchanged |
| `Assembly.RegPack.Reg` | hook/Assembly.hpp:48-62 | `edi()` ... `eax()`: the slot of the named register; the constructor states that each returns its own register |
| `Assembly.RegPack.constructor` | hook/Assembly.hpp:48-62 | In the pack built from the register values, every named accessor returns its own register |
| `Assembly.RegPack.SetAt` | hook/Assembly.hpp:64-65 | Assigning slot i changes that slot, and so the register it names, and nothing else |
| `Assembly.RegPack.Flag` | hook/Assembly.hpp:67-71 | True iff bit `bit` of the saved EFLAGS is set |
| `Assembly.RegPack.Jnb` | hook/Assembly.hpp:73 | True iff the carry flag (bit 0) is clear |
| `Assembly.FlagsIndependent` | hook/Assembly.hpp:67-71 | Setting one flag leaves every other flag's test unchanged |
| `Assembly.MakeInline` | hook/Assembly.hpp:134-141 | Writes a near call to the trampoline at `at`, which decodes back to it |
| `Assembly.MakeInlineRange` | hook/Assembly.hpp:144-149 | NOPs `[at, end)`, then writes the call |
| `Assembly.InlineLayout` | hook/Assembly.hpp:144-149 | For `end - at >= 5`: `E8` at `at`, the rel32 to the stub after it, NOPs up to `end`, and no byte outside `[at, end)` changed |
| `Assembly.MakeInlineAt` | hook/Assembly.hpp:176-180 | The range is `[at, at + 5)`; with a non-null stub the result is the call alone |
| `Assembly.InlineAtIsCall` | hook/Assembly.hpp:176-180 | NOPing exactly the five bytes of the call first makes no difference |
| `MemoryPointers.FromInt` | hook/MemoryPointer.hpp:28 | `AsInt()` gives the integer back, and equal integers give equal pointers |
| `MemoryPointers.MemoryPointer.Eq` | hook/MemoryPointer.hpp:62 | `operator==` on the raw word; `TotalOrder` relates the six comparisons |
| `MemoryPointers.MemoryPointer.Ne` | hook/MemoryPointer.hpp:63 | `operator!=`, the negation of `Eq` by `TotalOrder` |
| `MemoryPointers.MemoryPointer.Lt` | hook/MemoryPointer.hpp:64 | `operator<` on the raw word |
| `MemoryPointers.MemoryPointer.Le` | hook/MemoryPointer.hpp:65 | `operator<=` on the raw word |
| `MemoryPointers.MemoryPointer.Gt` | hook/MemoryPointer.hpp:66 | `operator>` on the raw word |
| `MemoryPointers.MemoryPointer.Ge` | hook/MemoryPointer.hpp:67 | `operator>=` on the raw word |
| `MemoryPointers.TotalOrder` | hook/MemoryPointer.hpp:62-67 | The six comparisons are the raw integer order, which is total, antisymmetric, transitive and mutually consistent |
| `MemoryPointers.MemoryPointer.Plus` | hook/MemoryPointer.hpp:70 | The result lies `rhs` bytes after the pointer round the address space; exact when no wrap occurs (`+=` is the same function) |
| `MemoryPointers.MemoryPointer.Minus` | hook/MemoryPointer.hpp:71 | Adding `rhs` back to the result gives the pointer; exact when `rhs` is not larger (`-=` is the same function) |
| `MemoryPointers.MemoryPointer.Times` | hook/MemoryPointer.hpp:72 | The product modulo 2^32: the result is the 32-bit word congruent to the product, exact when it fits; 1 is neutral (`*=` is the same function) |
| `MemoryPointers.MemoryPointer.Div` | hook/MemoryPointer.hpp:73 | Unsigned quotient: `q * d <= a < (q + 1) * d`, for a non-zero divisor (`/=` is the same function) |
| `MemoryPointers.PlusMinusInverse` | hook/MemoryPointer.hpp:70-71 | Subtracting undoes adding, and adding undoes subtracting |
| `MemoryPointers.PlusCommutes` | hook/MemoryPointer.hpp:70 | Addition commutes, and the null pointer is its zero |
| `MemoryPointers.PlusAssociates` | hook/MemoryPointer.hpp:70 | Wrapping addition associates |
| `MemoryPointers.MemoryPointer.ToBool` | hook/MemoryPointer.hpp:40 | The bool conversion equals `IsNull()` as written, so it is true iff the pointer is non-null |
| `MemoryPointers.MemoryPointer.IsNull` | hook/MemoryPointer.hpp:36 | `IsNull()` as written, `m_ptr != nullptr`; `IsNullInverted` states its truth table |
| `MemoryPointers.IsNullInverted` | hook/MemoryPointer.hpp:36 | `IsNull()` is false for the null pointer and true for every other pointer |
| `HookFunctions.Registry.constructor` | hook/HookFunction.cpp:14 | The list of installers starts empty |
| `HookFunctions.Registry.Register` | hook/HookFunction.cpp:16-20 | The installer becomes the head and its `next` is the old head. The rest of the chain is unchanged, and the chain stays null-terminated, acyclic and in reverse registration order |
| `HookFunctions.Registry.RunAll` | hook/HookFunction.cpp:22-28 | The walk visits every registered installer exactly once, most recent first; nothing on a fresh list |
| `HookFunctions.HookFunctionBase.constructor` | hook/HookFunction.hpp:18 | Constructing an installer registers it exactly once, at the head |

## Left out

- Page protection (`ScopedUnprotect`, `ProtectMemory`, `UnprotectMemory`, hook/Hook.hpp:24-56) is a set of `VirtualProtect` calls to the operating system. The model writes memory directly. It therefore does not capture the zero-size short-circuit at hook/Hook.hpp:39-40 or a failed unprotect.
- The naked assembly trampoline `MakeRegPackAndCall` (hook/Assembly.hpp:100-129) is machine code.
  - Its address is the parameter `stub` of the MakeInline methods.
  - The register frame it builds is modelled only through its layout (`PushadLayout`). The `esp` adjustment it makes is not modelled.
- The functor plumbing of the template `MakeInline` forms (the static functor, `LazyPointer`) is not modelled; only their effect on memory is. hook/LazyPointer.hpp is not part of this model.
- `ExecutableMeta(void* module)` (hook/Pattern.cpp:83-90) reads the PE header of the live module. Its code size is the parameter `codeSize`.
- `SetBase()` (hook/Pattern.cpp:23-26) asks the OS for the process's main module. Its base is the parameter `processBase` of `GetRVA`.
- The x64 branches of `SetBase` and `GetRVA` are not modelled: the library is modelled as x86-only.
- `GetPattern` (hook/Pattern.hpp:176-180) is `GetFirst` on a fresh pattern and has no member of its own.
- `CopyStr` and `CopyStrEx` (hook/Hook.hpp:109-119) are thin `strcpy`/`strncpy` wrappers and are not modelled.
- hook/Call.hpp is not part of this model: it only casts and calls through foreign function pointers.
- `MemoryPointer`'s `Get`, `GetRaw` and pointer conversions are typed views of the same word and are not modelled.
- The pointer and the integer members of the `MemoryPointer` union are one raw 32-bit word here, as they are on x86.
- Concurrency is not modelled. This covers other threads executing patched code, and multi-byte writes being non-atomic.
- `Run` of a hook installer is a virtual call into unseen code. `RunAll` returns the sequence of installers it would call instead.
- The list's `next` links are fields of real objects. The chain is described by the ghost sequences `list` and `registered`.
- Patterns.Pattern.Count: the source's `assert` aborts the process. The model returns its verdict as `ok` instead.
- Patterns.Pattern.GetOne: an aborted `Count` is modelled as the result `None`.
- Assembly.RegPack.Flag: the template parameter `bit` is required to be below 32. In C++ a shift by 32 or more is undefined.
- Reading or writing past the top of the address space wraps round to address 0 in the model. In the process it would fault.
- Scanner.Scan: the window offset is an unbounded integer, so the scan stops at the top of the address space. In the source `i` is a `uintptr_t`: with an empty signature over a range ending at `0xFFFFFFFF`, every window matches, `i <= end` always holds, and `i++` wraps to 0, so the scan goes on from address 0 until `maxCount` is reached. For a non-empty signature whose range holds it, the last window start is at most `end - maskSize`, a step never carries `i` past `end`, and no wrap occurs. The wrapped bound of a range shorter than the signature is a finding below.
- HookFunctions.Registry.Register: requires the installer not to be registered already. The source has no such guard: registering the same object twice makes its `next` point at itself, and `RunAll` then never ends. The model does not capture that endless walk.
- The patch primitives and the scanner take raw 32-bit words (`u32`) for addresses and wrap with `Machine.Wrap` and `Machine.Offset`, rather than going through `MemoryPointers`. `MemoryPointer.Plus` and `Minus` compute the same wrapping sums on the same word.
- Patterns.Pattern.Get: the index must be below the size. The source does not check it and indexes out of bounds otherwise.

## Findings

| source | as written | input that shows it | evidently intended | confidence | as-written member | corrected member |
|---|---|---|---|---|---|---|
| hook/MemoryPointer.hpp:36 | `IsNull()` returns `m_ptr != nullptr`, so it is true for every non-null pointer, and `operator bool` inherits that | `MemoryPointer(nullptr).IsNull()` is false; `MemoryPointer(1).IsNull()` is true | `IsNull()` true iff the pointer is null, as its comment says; `operator bool` true iff non-null | not executed | `MemoryPointers.IsNullInverted` (on `MemoryPointers.MemoryPointer.IsNull`) | `MemoryPointers.MemoryPointer.ToBool` (on `MemoryPointers.MemoryPointer.IsNullPointer`) |
| hook/Pattern.cpp:153 | The last window start is the unsigned `end - maskSize`; for a range ending below the pattern length it wraps to the top of the address space, so the scan runs windows far outside the range | `end = 2`, `maskSize = 3`: the bound is `0xFFFFFFFF` | No window when the range is shorter than the pattern; every window inside `[begin, end)` | not executed | `Scanner.ScanLimitWraps` (on `Scanner.ScanLimitAsWritten`) | `Scanner.AllMatchesInRange` (on `Scanner.LastStart`, used by `Scanner.Scan`) |
