# IP accounting rule parser (net-snmp `ipfwacc`)

A Dafny model of the rule parser in net-snmp's `agent/mibgroup/misc/ipfwacc.c`.
The agent serves the Linux IP accounting rules of `/proc/net/ip_acct` as SNMP
columns. For each query it reads the requested line of that file into a static
200-byte buffer `rule` and decodes one column of it:

- four address words at fixed columns 0, 9, 19 and 28;
- the variable-length via (interface) name at column 37 and the via address after it;
- a hex flags word, mapped to small enumerated codes;
- decimal counters and ten port columns, found by skipping columns after the flags.

The model keeps the program's shape. The buffer is an `array<byte>` of a class
`RuleBuffer`, and every C loop is a method with a `while` loop over it:

- `readrule`, which reads chunk after chunk into the buffer;
- `atoip`;
- the scans and accumulations of `getflags` and `getnumeric`;
- the via-name and via-address cases, one of which writes a NUL in place.

Each method is proved against a function of the buffer contents. The lemmas
about those functions state what the parser computes on a well-formed line.
The flag-to-code tables and the field table are pure functions.

Every array access of every method is checked for arbitrary buffer contents.
So the promise of lines 36-41 holds: nothing is read or written at index 200 or
beyond, whatever the line holds.

C arithmetic is modelled on LP64:

- `unsigned long` is taken modulo 2^64, including the wrap of a long or
  malformed column and the possibly negative digit values of non-digit bytes.
- `|` and `&` are defined digit by digit on natural numbers (`Bits`).

Modules, in dependency order:

- `Bits`: powers of two, `|`, `&`, `>>`, and the `unsigned long` modulus.
- `Bytes`: bytes, the character constants, the 200-byte buffer, and `At` (text at a position).
- `Numerals`: the parser's digit arithmetic; `%X`/`%u` printing and the round trips.
- `FlagCodes`: the flag bit constants (lines 20-34) and the five code tables.
- `LineSource`: the file as a sequence of `fgets` chunks; what `readrule` returns and leaves.
- `Columns`: the scans, `atoip`, `getflags` and `getnumeric` as functions, and their behaviour on well-formed lines.
- `Fields`: the queried fields and the value the agent gives each.
- `IpFwAcc`: the class `RuleBuffer` with the imperative routines and the query dispatch.
- `Records`: rules as the kernel prints them, and the proof that every field reads back the rule's value.

Details of the code the model follows:

- `atoip` puts the first digit pair in the least significant byte, high nibble first within each pair.
- `getflags` accumulates the flags word into a 64-bit `unsigned long`.
- The source address, source mask, destination address and destination mask start at columns 0, 9, 19 and 28.
- `getnumeric` counts the flags column as column 0. The columns after it are source ports, destination ports, packets and bytes at skips 1 to 4, then ports 1 to 10 at skips 5 to 14.

## Model

All source paths are in `agent/mibgroup/misc/ipfwacc.c`.

| member | source | states |
|---|---|---|
| IpFwAcc.RuleBuffer.constructor | agent/mibgroup/misc/ipfwacc.c:36 | the static buffer holds 200 bytes, all zero |
| IpFwAcc.RuleBuffer.Read | agent/mibgroup/misc/ipfwacc.c:62 | after one successful `fgets` the buffer holds the chunk, a NUL, and the stale bytes after them |
| IpFwAcc.RuleBuffer.ReadRule | agent/mibgroup/misc/ipfwacc.c:49-72 | returns exactly `ReadRuleResult` for the source and number; leaves the buffer as every chunk it read, read in turn |
| LineSource.ReadRuleResultCases | agent/mibgroup/misc/ipfwacc.c:43-72 | returns 0 when the file cannot be opened or has no header; for n >= 1 returns n iff at least n lines follow the header, else 0; for 0 returns the number of lines after the header |
| LineSource.ReadRuleLoads | agent/mibgroup/misc/ipfwacc.c:61-72 | on success the buffer starts with the requested line (the last line for number 0), NUL-terminated |
| LineSource.LoadAllKeepsTail | agent/mibgroup/misc/ipfwacc.c:57-69 | bytes past every chunk read keep their earlier value |
| Columns.ScanToSpace | agent/mibgroup/misc/ipfwacc.c:107-108 | the scan stops at the first space or at the bound, never past the bound or the buffer, and passes only non-spaces |
| Columns.SkipSpaces | agent/mibgroup/misc/ipfwacc.c:138-139 | the scan stops at the first non-space or at the bound, and passes only spaces |
| IpFwAcc.RuleBuffer.ToSpace | agent/mibgroup/misc/ipfwacc.c:107-108 | the loop over a column ends where `ScanToSpace` says |
| IpFwAcc.RuleBuffer.OverSpaces | agent/mibgroup/misc/ipfwacc.c:138-139 | the loop over spaces ends where `SkipSpaces` says |
| IpFwAcc.RuleBuffer.AtoIp | agent/mibgroup/misc/ipfwacc.c:83-97 | reads only the 8 bytes at `pos`, which must lie in the buffer, and returns the value `DecodeIp` gives them |
| IpFwAcc.RuleBuffer.DigitPair | agent/mibgroup/misc/ipfwacc.c:89-93 | one round of `atoip`: the high digit shifted by 4 plus the low digit, in `unsigned long` |
| Columns.IpAccumOfHex | agent/mibgroup/misc/ipfwacc.c:87-96 | on uppercase hex digits no round wraps and each `|=` adds: after k rounds the value is the first k pairs at weights 256^j, below 2^(8k) |
| Columns.DecodeIpOfHex | agent/mibgroup/misc/ipfwacc.c:83-97 | on 8 uppercase hex digits the result is below 2^32, and its byte k is digit pair k (16 times the high digit plus the low digit) |
| Columns.DecodeEncodeIp | agent/mibgroup/misc/ipfwacc.c:83-97 | writing a 32-bit value low byte first, two uppercase digits per byte, then decoding it gives the value back |
| Columns.EncodeDecodeIp | agent/mibgroup/misc/ipfwacc.c:83-97 | encoding the decoded value of 8 uppercase hex digits gives the digits back |
| IpFwAcc.RuleBuffer.FindFlags | agent/mibgroup/misc/ipfwacc.c:104-110 | the flags column is looked for 10 bytes past the via-name scan, which stops at 188 or before |
| IpFwAcc.RuleBuffer.HexColumn | agent/mibgroup/misc/ipfwacc.c:111-115 | accumulates the column up to the next space or index 199 as hex, modulo 2^64 |
| IpFwAcc.RuleBuffer.GetFlags | agent/mibgroup/misc/ipfwacc.c:101-117 | returns `FlagsValue` of the buffer |
| Columns.FlagsWellFormed | agent/mibgroup/misc/ipfwacc.c:101-117 | with a via name ending before 188 and a space-terminated token 10 bytes after it, `getflags` gives the token's hex value modulo 2^64, and exactly its value for up to 16 uppercase digits |
| Columns.FlagsOfLayout | agent/mibgroup/misc/ipfwacc.c:101-117 | on a well-formed line `getflags` reads the first column after the via address |
| Numerals.HexTextRoundTrip | agent/mibgroup/misc/ipfwacc.c:111-115 | reading back a `%X` numeral gives the number printed |
| Numerals.HexValueBound | agent/mibgroup/misc/ipfwacc.c:111-115 | n uppercase hex digits have a value below 16^n |
| IpFwAcc.RuleBuffer.Skip | agent/mibgroup/misc/ipfwacc.c:133-140 | the skip loop ends at `SkipColumns`, `skip` passes over a column and its spaces |
| IpFwAcc.RuleBuffer.DecColumn | agent/mibgroup/misc/ipfwacc.c:141-142 | accumulates the column up to the next space or index 199 as decimal, modulo 2^64 |
| IpFwAcc.RuleBuffer.GetNumeric | agent/mibgroup/misc/ipfwacc.c:124-143 | returns `NumericValue` of the buffer for `skip` |
| Numerals.DecTextRoundTrip | agent/mibgroup/misc/ipfwacc.c:141-142 | reading back a `%u` numeral gives the number printed |
| Columns.SkipColumnsLands | agent/mibgroup/misc/ipfwacc.c:133-140 | on columns separated by runs of one or more spaces, skipping k columns lands on column k, followed by a space inside the layout |
| Columns.NumericWellFormed | agent/mibgroup/misc/ipfwacc.c:124-143 | on a well-formed line `getnumeric(skip)` reads column `skip`, counting the flags column as column 0, as decimal modulo 2^64 |
| Columns.NumericIndependentOfLayout | agent/mibgroup/misc/ipfwacc.c:124-143 | the counter read does not depend on the length of the via name nor on the widths of the runs of spaces |
| Columns.ViaNameEndAt | agent/mibgroup/misc/ipfwacc.c:177-179 | every via-name scan stops at the space after a well-formed via name |
| Columns.ViaNameTextAt | agent/mibgroup/misc/ipfwacc.c:176-182 | on a well-formed line the via-name field is exactly the via name |
| IpFwAcc.RuleBuffer.ReadViaName | agent/mibgroup/misc/ipfwacc.c:176-182 | returns `rule[37..i)` for the first space i at or after 37 (or 199), and changes only `rule[i]`, to 0 |
| IpFwAcc.RuleBuffer.ReadViaAddr | agent/mibgroup/misc/ipfwacc.c:183-189 | decodes the 8 bytes after the via-name scan, which stops at 191 or before |
| FlagCodes.ProtoCode | agent/mibgroup/misc/ipfwacc.c:190-197 | 2, 3, 4, 5 for `flags & 3` = 0, 1, 2, 3; the default code 1 never occurs |
| FlagCodes.BidirCode | agent/mibgroup/misc/ipfwacc.c:198-200 | 2 iff bit 0x40 is set, else 1 |
| FlagCodes.DirCode | agent/mibgroup/misc/ipfwacc.c:201-209 | 2 iff only ACCTIN is set, 3 iff only ACCTOUT is set, 1 iff both or neither are |
| FlagCodes.SrcRangeCode | agent/mibgroup/misc/ipfwacc.c:222-224 | 1 iff bit 0x08 is set, else 2 |
| FlagCodes.DstRangeCode | agent/mibgroup/misc/ipfwacc.c:225-227 | 1 iff bit 0x10 is set, else 2 |
| Fields.CounterSkip | agent/mibgroup/misc/ipfwacc.c:210-238 | the counters use skips 1 to 14; port k uses skip 4 + k |
| IpFwAcc.RuleBuffer.Query | agent/mibgroup/misc/ipfwacc.c:158-242 | loads rule `index` cut to `unsigned int`; if `readrule` gives 0, answers nothing and parses nothing; else answers the field's value, and only the via name changes the buffer |
| IpFwAcc.RuleBuffer.Answer | agent/mibgroup/misc/ipfwacc.c:160-240 | the switch gives `FieldValue` of the buffer; only the via-name case writes to it |
| IpFwAcc.RuleBuffer.Lookup | agent/mibgroup/misc/ipfwacc.c:161-239 | every other case: the index echoed, `atoip` at 0/9/19/28, the via address, the flag codes, and `getnumeric` at the field's skip |
| Records.AddressFields | agent/mibgroup/misc/ipfwacc.c:164-175 | the four address words of a printed rule read back as its addresses and masks |
| Records.ViaFields | agent/mibgroup/misc/ipfwacc.c:176-189 | the via name and via address of a printed rule read back as the rule's |
| Records.FlagFields | agent/mibgroup/misc/ipfwacc.c:190-227 | the flag fields of a printed rule are the codes of its flags |
| Records.CounterFields | agent/mibgroup/misc/ipfwacc.c:210-239 | the counters and ports of a printed rule read back as the rule's |
| Records.FieldsOfLine | agent/mibgroup/misc/ipfwacc.c:158-242 | on a buffer starting with the line of a well-formed rule, whatever the padding, every field is the value the rule holds |
| Records.FieldsOfListedRule | agent/mibgroup/misc/ipfwacc.c:158-242 | when line n of the file is such a line, `readrule(n)` finds it and every field of the loaded buffer is the rule's value |
| Records.ExampleFields | agent/mibgroup/misc/ipfwacc.c:158-242 | a UDP rule on eth0 with 5000 bytes answers 4, 5000 and "eth0" |
| Fields.ViaNameReplyMismatch | agent/mibgroup/misc/ipfwacc.c:176-182 | the 8-byte via-name reply as written equals the name iff the name has 8 bytes |

## Left out

- File I/O: `fopen`, `fgets` and `fclose` (lines 52-70) are replaced by a source that is either unavailable or a sequence of chunks of 1 to 199 bytes. How `fgets` splits a line longer than 199 bytes is not modelled, so a chunk stands for a line.
- `checkmib` and its `readrule(0)` (line 155), the OID handling, and `vp`, `name`, `length` and `exact` belong to the SNMP layer and are not visible. A query starts from an arbitrary buffer, which covers what that earlier `readrule(0)` left in it.
- `*var_len` and `*write_method` (lines 152-153) are protocol bookkeeping. `Fields.ViaNameReplyAsWritten` models the reply length only for the finding below.
- Returning `&ret_val` or `rule + 37`: the model returns the value or the bytes of the string. `ret_val` is not a field, since every routine sets it before it is read.
- ReadRule: the C loop counter `i` is a signed `int`. The model's counter is unbounded, so a file with more than 2^31 lines is not modelled.
- A field number outside the switch (the fall-through to line 242) is not modelled, because `Field` holds only the columns the switch handles.
- LP64 is assumed: `unsigned long` is 64 bits and `unsigned int` 32 bits.
- Concurrency: the agent is single-threaded, so the class holds the one buffer.

## Findings

| source | as written | input that shows it | evidently intended | confidence | as-written member | corrected member |
|---|---|---|---|---|---|---|
| agent/mibgroup/misc/ipfwacc.c:176-182 | the via-name case returns `rule + 37` but leaves the reply length at `sizeof(ret_val)`, 8, as set on line 153 | a rule on interface "eth0": the reply is "eth0", the NUL, and the first three digits of the via address | the reply is the via name, of its own length | medium; not executed | Fields.ViaNameReplyMismatch | Records.ViaFields |
