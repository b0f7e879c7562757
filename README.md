# dotnet-opa-wasm: OpaPolicy and the sprintf builtin, in Dafny

A model of two parts of the .NET host for Open Policy Agent policies that have been compiled to WebAssembly. Both parts come with proofs.

1. **`OpaPolicy`**, the host-side evaluator (`policy.dfy`, over `sandbox.dfy`).
   - It keeps three fields: the address of the data document, a base heap watermark and a data heap watermark.
   - It drives the module's exports in sequence, against the module's bump-allocated heap.
   - The compiled module is an abstract `Engine`: every export is a function of its arguments and of the heap pointer it starts from. The one assumption is that exports never move the heap pointer back (`Monotone`).
   - `Sandbox.Instance` is the instantiated module as a class. Each export is a method that updates its `heapPtr`, `memory` and `contexts`.
   - `Policy.OpaPolicy` is the policy object as a class. Each operation is a method with the fields it changes in its `modifies` clause.
   - The proofs cover the checkpoint discipline:
     - loading data always starts again at the base watermark;
     - every evaluation starts again at the data watermark;
     - no evaluation moves any watermark.
   - They also cover the checks on the way:
     - the ABI major-version gate;
     - the zero-address parse failure;
     - entrypoint lookup by id and by name;
     - the builtin arity check;
     - the argument loop;
     - turning the builtins metadata (name → id) round into an id → name map.
2. **`sprintf`** (`strings.dfy`, with `specifier.dfy`, `number_format.dfy`, `clr_values.dfy` and `text.dfy`).
   - The conversion-specifier regular expression becomes a hand-written scanner, proved to find exactly the matches the pattern has. Its `\d` is .NET's: every decimal digit of Unicode, not only '0'..'9'.
   - Each specifier's pipeline has its own function: parameter index, flags, width and padding, precision, `h`/`l` conversion, and the conversion switch.
   - `Strings.Format` is a reference definition that replaces one leftmost specifier at a time.
   - `Strings.Sprintf` is the source's loop over a mutable buffer. It is proved equal to `Format`, including its exceptions.
   - The integer, character, string, octal and hex paths are modelled with the source's quirks. One example: zero padding always puts one sign or padding character in front of digits padded to width − 1, so `%03d` of 5 is `"005"` and `%#03o` of 0 is `"0000"`.
   - Every .NET exception the code can throw is a `Failure` carrying an `Exceptions.Exception` value.

Supporting modules:
- `wrappers.dfy`: `Option` and `Result`.
- `exceptions.dfy`: the exception kinds.
- `text.dfy`: positional notation, `PadLeft`/`PadRight`, and reading digits back.
- `clr_values.dfy`: the boxed .NET values sprintf receives:
  - signed and unsigned integers of each width, `char`, `string`, `null` and "other";
  - with unchecked casts written out as explicit wrap-around.

## Model

| member | source | states |
|---|---|---|
| Policy.OpaPolicy.constructor | src/Opa.Wasm/OpaPolicy.cs:12-26 | the fields start at zero, empty and null before initialization |
| Policy.OpaPolicy.LoadJson | src/Opa.Wasm/OpaPolicy.cs:317-330 | allocates exactly \|json\| bytes at the old heap pointer and writes the text there; fails with ArgumentNull when the parse returns address 0, otherwise returns that non-zero address; the heap pointer is the parse's |
| Policy.OpaPolicy.ReadAbiVersionGlobals | src/Opa.Wasm/OpaPolicy.cs:213-239 | a present major version other than 1 fails with BadImageFormat and records nothing; major 1 sets AbiVersion to 1; an absent major leaves it as it was; a present minor version is recorded unchanged |
| Policy.OpaPolicy.ReadBuiltins | src/Opa.Wasm/OpaPolicy.cs:174-177 | dumps the builtins metadata and reads it with default options (no trailing commas); the id → name map is built from its members, and either step's exception is the result |
| Policy.OpaPolicy.LoadInitialData | src/Opa.Wasm/OpaPolicy.cs:179-181 | loads "{}" as the data; on success the data address is the loaded one and both watermarks are the heap pointer right after that load |
| Policy.OpaPolicy.ParseEntryPointsJson | src/Opa.Wasm/OpaPolicy.cs:195-211 | the entrypoints text is read with trailing commas allowed; its members are added in order to a new dictionary; a document that does not parse gives its exception |
| Policy.OpaPolicy.Initialize | src/Opa.Wasm/OpaPolicy.cs:170-187 | succeeds exactly when Initialization does and otherwise fails with its exception; on success the policy is valid, the builtins map, the data address, both (equal) watermarks and the entrypoint table are Initialization's, the entrypoint table coming from the entrypoints metadata dumped right after "{}" was loaded, and the ABI fields are the module's |
| Policy.InitializationSucceeds | src/Opa.Wasm/OpaPolicy.cs:170-187 | initialization succeeds exactly when both metadata texts parse, the builtin ids are distinct Int32s, "{}" loads, the entrypoint names are distinct with Int32 ids, and the major ABI version is absent or 1; the maps then hold every member of the metadata they come from, and both watermarks are the heap pointer right after "{}" |
| Policy.InitializationFailures | src/Opa.Wasm/OpaPolicy.cs:170-187 | the builtins metadata's parse error comes first, then BuiltinIdMap's (a non-Int32 or repeated id), then ArgumentNull when "{}" does not load, then the entrypoints metadata's parse error, then the entry table's (a non-Int32 id or a repeated name); once every other step succeeds, the result fails, with BadImageFormat, exactly when the major ABI version is present and not 1 |
| Policy.OpaPolicy.SetData | src/Opa.Wasm/OpaPolicy.cs:310-315 | restarts at baseHeapPtr and never changes it; the heap pointer ends where loading json at baseHeapPtr leaves it; on success the data address and dataHeapPtr are that load's; on a parse failure (ArgumentNull) both field values are kept, although the heap they point into has been written over (see "## Left out") |
| Policy.OpaPolicy.ExecuteEvaluate | src/Opa.Wasm/OpaPolicy.cs:274-298 | restarts at dataHeapPtr, loads the input, and evaluates a context bound to the input just loaded, to the current data address and, only when given, to the entrypoint; the result is the dump of its result; no field of the policy changes |
| Policy.OpaPolicy.Evaluate | src/Opa.Wasm/OpaPolicy.cs:241-244 | an evaluation with no entrypoint set |
| Policy.OpaPolicy.EvaluateById | src/Opa.Wasm/OpaPolicy.cs:246-262 | an id that is not among the entrypoint table's values fails with ArgumentOutOfRange and leaves the heap alone; otherwise it evaluates with exactly that id |
| Policy.OpaPolicy.EvaluateByName | src/Opa.Wasm/OpaPolicy.cs:264-272 | a name that is not a key fails with ArgumentOutOfRange and leaves the heap alone; otherwise it evaluates with exactly the id the name maps to |
| Policy.OpaPolicy.FastEvaluate | src/Opa.Wasm/OpaPolicy.cs:301-308 | the input is written at dataHeapPtr, and opa_eval runs with the data address and with the heap starting right after the input; no watermark moves |
| Policy.OpaPolicy.ReadArguments | src/Opa.Wasm/OpaPolicy.cs:147-162 | dumps the addresses in order, deserializing each text as it comes; the first rejected argument ends the loop with its exception; exactly the addresses dumped are added to the dump log |
| Policy.OpaPolicy.CallBuiltin | src/Opa.Wasm/OpaPolicy.cs:135-168 | an unknown id fails with KeyNotFound; an unregistered name fails with InvalidOperation; a builtin needing more parameters than the addresses supplied fails with ArgumentException before anything is dumped; otherwise only a prefix of the first arity addresses is dumped, in order, all arity of them on success; the extras are never touched; the builtin's serialized result is loaded |
| Policy.Open | src/Opa.Wasm/OpaPolicy.cs:33-70 | a policy is returned exactly when Initialization succeeds from the instance's heap pointer, and then it is valid and holds Initialization's maps and watermarks; otherwise Initialization's exception is the result, so a module with a major ABI version other than 1 gives no policy; the returned policy keeps the given registry and object reader, and its AbiVersion and AbiMinorVersion are the module's globals |
| Policy.SetDataIdempotent | src/Opa.Wasm/OpaPolicy.cs:310-315 | with a deterministic module, setting the same data twice gives the same outcome; the second call leaves the data address and dataHeapPtr exactly where the first put them (the load of json at baseHeapPtr on success, the old values on failure); baseHeapPtr never moves |
| Policy.EvaluateTwice | src/Opa.Wasm/OpaPolicy.cs:274-298 | the second of two evaluations yields what it would on its own, and the watermarks and data address are unchanged |
| Policy.EvaluateLookupsAgree | src/Opa.Wasm/OpaPolicy.cs:246-272 | evaluating by an entrypoint's name and by the id it maps to give the same result |
| Policy.AddAllSucceeds | src/Opa.Wasm/OpaPolicy.cs:203-208 | adding entries one by one succeeds exactly when each one's value can be read and no key is already present or repeated |
| Policy.AddAllContents | src/Opa.Wasm/OpaPolicy.cs:203-208 | the dictionary built keeps what it held, holds every entry's pair, and nothing else |
| Policy.BuiltinIdMapInverts | src/Opa.Wasm/OpaPolicy.cs:177 | ToDictionary(GetInt32, Name) over the members (BuiltinEntry, BuiltinEntries, GetInt32) exists exactly when all ids are Int32 and no id is repeated; it then maps each member's id to that member's name, and only those ids: it is the inverse of the name → id metadata |
| Policy.EntrypointTableContents | src/Opa.Wasm/OpaPolicy.cs:195-211 | adding each member as (Name, GetInt32) (EntrypointEntry, EntrypointEntries, GetInt32) succeeds exactly when all ids are Int32 and no name is repeated; the table then maps each member's name to its id, and only those names |
| Policy.ParseEntryPoints | src/Opa.Wasm/OpaPolicy.cs:203-210 | the loop adding members one by one gives what adding all the entries gives, the first failure included |
| Policy.DumpArgumentsAgree | src/Opa.Wasm/OpaPolicy.cs:147-162 | the argument loop succeeds exactly when no dumped text is rejected; it then has dumped every address and produced the texts and heap pointer of dumping them all in order |
| Policy.DumpArgumentsStops | src/Opa.Wasm/OpaPolicy.cs:147-162 | once an argument is rejected, the later addresses change nothing |
| Policy.Element | src/Opa.Wasm/OpaPolicy.cs:249 | the enumeration of a non-empty set of values yields one of its elements |
| Sandbox.LoadAdvances | src/Opa.Wasm/OpaPolicy.cs:317-330 | loading a text leaves the heap pointer at least past the text it wrote |
| Sandbox.DumpAll | src/Opa.Wasm/OpaPolicy.cs:147-150 | dumping a sequence of addresses gives one text per address |
| Sandbox.DumpAllShape | src/Opa.Wasm/OpaPolicy.cs:147-150 | each text is the dump of its address with the heap pointer left by the dumps before it, and the heap pointer only moves forward |
| Sandbox.Instance.constructor | src/Opa.Wasm/OpaPolicy.cs:172 | a new instance with the given engine and heap pointer has nothing written and no contexts |
| Sandbox.Instance.HeapPtrGet | src/Opa.Wasm/OpaPolicy.cs:180 | opa_heap_ptr_get returns the heap pointer |
| Sandbox.Instance.HeapPtrSet | src/Opa.Wasm/OpaPolicy.cs:277 | opa_heap_ptr_set sets the heap pointer and nothing else |
| Sandbox.Instance.Malloc | src/Opa.Wasm/OpaPolicy.cs:319 | opa_malloc returns the old heap pointer and moves it forward by exactly n |
| Sandbox.Instance.WriteString | src/Opa.Wasm/OpaPolicy.cs:320 | writing a text into memory records it at its address and changes nothing else |
| Sandbox.Instance.JsonParse | src/Opa.Wasm/OpaPolicy.cs:322 | opa_json_parse parses the len characters written at addr |
| Sandbox.Instance.JsonDump | src/Opa.Wasm/OpaPolicy.cs:332-336 | opa_json_dump followed by reading the text back; the address is added to the dump log |
| Sandbox.Instance.EvalCtxNew | src/Opa.Wasm/OpaPolicy.cs:283 | a fresh empty context at the heap pointer, which moves forward by the context's size |
| Sandbox.Instance.EvalCtxSetInput | src/Opa.Wasm/OpaPolicy.cs:284 | sets the context's input and nothing else |
| Sandbox.Instance.EvalCtxSetData | src/Opa.Wasm/OpaPolicy.cs:285 | sets the context's data and nothing else |
| Sandbox.Instance.EvalCtxSetEntrypoint | src/Opa.Wasm/OpaPolicy.cs:289 | sets the context's entrypoint and nothing else |
| Sandbox.Instance.Eval | src/Opa.Wasm/OpaPolicy.cs:293 | stores the evaluation's result address in the context |
| Sandbox.Instance.EvalCtxGetResult | src/Opa.Wasm/OpaPolicy.cs:296 | returns the context's result address |
| Sandbox.Instance.OpaEval | src/Opa.Wasm/OpaPolicy.cs:305-307 | opa_eval on the text at input, with the given data address and heap start, followed by reading the result text |
| Strings.Sprintf | src/Opa.Wasm/Builtins/Strings.cs:11-300 | the loop's result, or its first exception, is exactly Format's: each leftmost specifier is replaced in turn, and the search resumes after the inserted text |
| Strings.ReplaceMatch | src/Opa.Wasm/Builtins/Strings.cs:294-296 | one pass of the loop keeps the buffer equal to the text produced so far plus the text still to search; the next search starts at the boundary; the remaining text shrinks, and the final result is unchanged; a failing replacement is the result's failure |
| Strings.ParseInt32 | src/Opa.Wasm/Builtins/Strings.cs:31 | Convert.ToInt32 of a digit group: an empty group or one with a non-digit fails with FormatException; a value above Int32.MaxValue fails with OverflowException; otherwise the decimal value |
| Strings.ParseInt32RoundTrip | src/Opa.Wasm/Builtins/Strings.cs:31 | the decimal text of any number up to Int32.MaxValue converts back to that number |
| Strings.StringTextInField | src/Opa.Wasm/Builtins/Strings.cs:208-221 | %s of null fails with NullReference; a precision beyond the text fails with ArgumentOutOfRange; otherwise the text, cut to the precision, sits flush left (with '-') or flush right in a field of the width, filled with the padding character |
| Strings.StepPercent | src/Opa.Wasm/Builtins/Strings.cs:146-149 | %% becomes "%" and uses up no parameter |
| Strings.StepMissingParameter | src/Opa.Wasm/Builtins/Strings.cs:110-206 | with no parameter left, the integral and %c conversions write nothing and advance, while %s fails with NullReference |
| Strings.StepNextIndex | src/Opa.Wasm/Builtins/Strings.cs:144-287 | %% and %n leave the running counter alone; every other conversion that succeeds advances it by exactly one |
| Strings.StepExplicitIndex | src/Opa.Wasm/Builtins/Strings.cs:26-32 | n$ with n ≥ 1 renders the n-th parameter exactly as the next-in-turn specifier at index n − 1 would, and the default counter still moves on from where it was |
| Strings.StepIndexZero | src/Opa.Wasm/Builtins/Strings.cs:26-32 | "0$" selects index −1: once the width and precision convert, the step fails with IndexOutOfRange |
| Strings.StepNotAsciiDigits | src/Opa.Wasm/Builtins/Strings.cs:26-69 | an n$ group that is empty or holds a \d character other than '0'..'9', and such a width, make Convert.ToInt32 fail with FormatException |
| Strings.StepSignedDecimal | src/Opa.Wasm/Builtins/Strings.cs:316-326 | %d and %i with space padding: the parameter's signed decimal text ('+' overriding ' ') reads back to the parameter and sits in the field, flush left under '-' even when the width starts with '0'; a width string.Format cannot align fails with FormatException; the counter moves on by one |
| Strings.StepZeroPaddedDecimal | src/Opa.Wasm/Builtins/Strings.cs:327-340 | %0nd: a width of 0 fails with ArgumentOutOfRange; otherwise the text starts with '-' exactly for a negative parameter, is n long or one more than the digits, and reads back to the parameter |
| Strings.StepShort | src/Opa.Wasm/Builtins/Strings.cs:119-128 | h replaces an int, long, uint or ulong parameter by a short or ushort holding it modulo 2^16, which is then rendered; any other type fails with ArgumentException, null with NullReference |
| Strings.StepShortDecimal | src/Opa.Wasm/Builtins/Strings.cs:119-128 | %hd of an int x renders the signed decimal text of x wrapped to 16 bits, a number in −32768..32767 congruent to x modulo 2^16 |
| Strings.StepLong | src/Opa.Wasm/Builtins/Strings.cs:129-138 | l replaces a short, int, ushort or uint parameter by a long or ulong of the same value, which is then rendered; any other type fails with ArgumentException, null with NullReference |
| Strings.StepChar | src/Opa.Wasm/Builtins/Strings.cs:197-206 | %c ignores width and flags: a code in 0..65535 outside the surrogates renders the character with that code, a code outside 0..65535 fails with OverflowException; a char renders itself, a string its first character, anything else nothing |
| Strings.StepString | src/Opa.Wasm/Builtins/Strings.cs:208-221 | %s of a string: a precision beyond its length fails with ArgumentOutOfRange; otherwise the text cut to the precision sits in the field, padded with '0' when the width starts with '0' and '-' is absent and with spaces otherwise |
| Strings.StringStep | src/Opa.Wasm/Builtins/Strings.cs:208-221 | a plain %s of the next parameter, a string, renders that string and moves the counter on by one, at any position in the parameters |
| Strings.Advance | src/Opa.Wasm/Builtins/Strings.cs:294-296 | splicing the replacement into the buffer gives the new produced text followed by the rest after the specifier; the reference result is unchanged |
| Strings.FormatFromFails | src/Opa.Wasm/Builtins/Strings.cs:24-296 | a failing replacement of the leftmost specifier is the whole result's failure |
| Strings.FormatFromDone | src/Opa.Wasm/Builtins/Strings.cs:24-299 | when no specifier is left, the buffer is the result |
| Strings.FormatFromExtends | src/Opa.Wasm/Builtins/Strings.cs:294-296 | text already produced is never changed afterwards |
| Strings.FormatFromFirst | src/Opa.Wasm/Builtins/Strings.cs:23-296 | the first specifier replaced is the leftmost, and the search resumes after its replacement |
| Strings.FormatFromLast | src/Opa.Wasm/Builtins/Strings.cs:289-299 | when a specifier is the last one, the result is the text before it, its replacement, and the text after it, unchanged |
| Strings.FormatNoPercent | src/Opa.Wasm/Builtins/Strings.cs:23-24 | a template with no '%' is returned unchanged |
| Strings.FormatNoRescan | src/Opa.Wasm/Builtins/Strings.cs:289-296 | sprintf("%s", [t]) is t for every string t, even one full of specifiers: inserted text is never scanned again |
| Specifier.SplitDigitsParts | src/Opa.Wasm/Builtins/Strings.cs:15 | the \d* groups take the longest run of characters of .NET's \d, the decimal digits of Unicode (Nd) in the Basic Multilingual Plane |
| Specifier.SplitDigitsUnique | src/Opa.Wasm/Builtins/Strings.cs:15 | a run of \d characters followed by a non-digit is the run the group takes |
| Specifier.SplitFlagsParts | src/Opa.Wasm/Builtins/Strings.cs:15 | the flags group takes the longest run of flag characters |
| Specifier.SplitFlagsUnique | src/Opa.Wasm/Builtins/Strings.cs:15 | a flag run followed by a non-flag is the run the group takes |
| Specifier.ScanSound | src/Opa.Wasm/Builtins/Strings.cs:15 | what the scanner returns is a match of the pattern at that position |
| Specifier.ScanWellFormed | src/Opa.Wasm/Builtins/Strings.cs:15 | the groups the scanner returns satisfy the pattern's character classes |
| Specifier.ScanSplits | src/Opa.Wasm/Builtins/Strings.cs:15 | the scanned specifier's text is a prefix of the text scanned |
| Specifier.ScanComplete | src/Opa.Wasm/Builtins/Strings.cs:15 | any match of the pattern at a position is the one the scanner returns, so the groups are unique |
| Specifier.ScanWritten | src/Opa.Wasm/Builtins/Strings.cs:15 | a well-formed specifier's text, followed by anything, scans back to that specifier |
| Specifier.SearchLeftmost | src/Opa.Wasm/Builtins/Strings.cs:23 | the match found is the leftmost one; none is found only when the pattern matches nowhere |
| Specifier.SearchInside | src/Opa.Wasm/Builtins/Strings.cs:294 | the specifier found lies within the text |
| Specifier.FindMatchLeftmost | src/Opa.Wasm/Builtins/Strings.cs:296 | a search from a start position finds the leftmost match at or after it; none is found only when there is none |
| Specifier.FindMatchShift | src/Opa.Wasm/Builtins/Strings.cs:296 | searching from inside a text depends only on the text from that position on |
| Specifier.NoPercentNoMatch | src/Opa.Wasm/Builtins/Strings.cs:15 | a text without '%' contains no specifier |
| NumberFormat.FormatNumber | src/Opa.Wasm/Builtins/Strings.cs:301-344 | a non-numeric value renders as ""; the only failures are a native format other than d (not modelled), space padding of eight or more digits of width, which "{0,n}" rejects with FormatException, and zero padding in a field of width 0 (PadLeft of −1 throws ArgumentOutOfRange) |
| NumberFormat.AlignedText | src/Opa.Wasm/Builtins/Strings.cs:307-311 | string.Format("{0,n}") of a text: a FormatException exactly when the width has eight or more digits, which the composite-format parser does not read to the end; otherwise the text in its field with spaces |
| NumberFormat.FormatNumberAligned | src/Opa.Wasm/Builtins/Strings.cs:320-326 | with space padding, the decimal value, signed as the flags ask (zero counts as positive), reads back to the value and sits flush left or right in the field; this fails, with FormatException, exactly for a width string.Format cannot align |
| NumberFormat.SignedDecimalRoundTrip | src/Opa.Wasm/Builtins/Strings.cs:322-324 | '+' or ' ' in front of a non-negative number, or its own '-', still reads back to the number |
| NumberFormat.IntTextParts | src/Opa.Wasm/Builtins/Strings.cs:329-330 | the decimal text is '-' exactly for a negative number, followed by the digits of the magnitude |
| NumberFormat.FormatNumberZeroPaddedParts | src/Opa.Wasm/Builtins/Strings.cs:327-340 | zero padding in a field of n gives one sign character (-, +, space or the padding '0') followed by the magnitude's digits padded to n − 1 |
| NumberFormat.FormatNumberZeroPadded | src/Opa.Wasm/Builtins/Strings.cs:327-340 | the zero-padded text is at least n long, starts with exactly one sign character, and reads back to the value |
| NumberFormat.ZeroPaddedText | src/Opa.Wasm/Builtins/Strings.cs:327-340 | the zero-padded text's length, its digits at the end, its sign character and its value |
| NumberFormat.ZeroPaddedShape | src/Opa.Wasm/Builtins/Strings.cs:327-340 | the zero-padded text is the sign followed by the magnitude's digits, padded to n − 1 with zeros |
| NumberFormat.ZeroPaddedParse | src/Opa.Wasm/Builtins/Strings.cs:327-340 | the zero-padded text reads back to the number |
| NumberFormat.FormatNumberZeroWidth | src/Opa.Wasm/Builtins/Strings.cs:331-332 | %00d of any number fails with ArgumentOutOfRange |
| NumberFormat.OctalDigits | src/Opa.Wasm/Builtins/Strings.cs:379 | Convert.ToString(long, 8) gives the octal digits of the 64-bit two's-complement pattern, and "0" only for zero |
| NumberFormat.FormatOct | src/Opa.Wasm/Builtins/Strings.cs:365-397 | a non-numeric value renders as ""; with space padding the only failure is FormatException, for a width string.Format cannot align; with zero padding the only failure is ArgumentOutOfRange, for '#' of a non-zero value in a field of width 0, where PadLeft gets −1 |
| NumberFormat.FormatOctAligned | src/Opa.Wasm/Builtins/Strings.cs:381-386 | with space padding, '#' puts "0" in front unless the digits are "0"; the text reads back to the value's pattern and sits in its field, failing exactly for a width string.Format cannot align |
| NumberFormat.FormatOctZeroPadded | src/Opa.Wasm/Builtins/Strings.cs:387-393 | zero padding fills the field, and the text reads back to the value's pattern |
| NumberFormat.FormatOctZeroQuirk | src/Opa.Wasm/Builtins/Strings.cs:387-392 | the '#' test runs again after padding, so %#0no of any zero value with n ≥ 2 is n + 1 zeros, one more than the field (%#03o of 0 is "0000") |
| NumberFormat.BitPatternIsModulo | src/Opa.Wasm/Builtins/Strings.cs:415 | the hex format works on the value modulo two to the width of its type |
| NumberFormat.HexDigits | src/Opa.Wasm/Builtins/Strings.cs:409-415 | the hex digits read back to the bit pattern, with at least as many digits as the precision |
| NumberFormat.FormatHex | src/Opa.Wasm/Builtins/Strings.cs:398-433 | a non-numeric value renders as ""; with space padding the only failure is FormatException, for a width string.Format cannot align; with zero padding the only failure is ArgumentOutOfRange, for '#' in a field narrower than 2, where PadLeft gets a negative width |
| NumberFormat.FormatHexAligned | src/Opa.Wasm/Builtins/Strings.cs:417-422 | with space padding, '#' puts "0x" or "0X" (by the conversion's case) in front; the digits read back to the pattern; the text sits in its field, failing exactly for a width string.Format cannot align |
| NumberFormat.FormatHexZeroPadded | src/Opa.Wasm/Builtins/Strings.cs:423-429 | with zero padding, the prefix comes first, then zero-padded digits filling a field of at least n that read back to the pattern |
| ClrValues.Wrap | src/Opa.Wasm/Builtins/Strings.cs:121-136 | an unchecked cast lands in the target type's range and keeps the value modulo two to its width |
| ClrValues.IsPositiveIsSign | src/Opa.Wasm/Builtins/Strings.cs:468-486 | on integral values IsPositive is the sign test, with zero counted as positive exactly when asked |
| ClrValues.ToUnsignedSameWidth | src/Opa.Wasm/Builtins/Strings.cs:441-458 | each signed integer becomes the unsigned type of the same width holding its value modulo two to the width; unsigned values are kept; anything else becomes null |
| ClrValues.UnboxToLongIsLong | src/Opa.Wasm/Builtins/Strings.cs:346-363 | UnboxToLong gives a 64-bit value congruent to the integral value, and 0 for anything else |
| ClrValues.ShortArgumentNarrows | src/Opa.Wasm/Builtins/Strings.cs:119-128 | h applies exactly to int, long, uint and ulong, and gives a short or ushort holding the value modulo 2^16 |
| ClrValues.LongArgumentWidens | src/Opa.Wasm/Builtins/Strings.cs:129-138 | l applies exactly to short, int, ushort and uint, and gives a long or ulong of the same value |
| Text.ToBaseRoundTrip | src/Opa.Wasm/Builtins/Strings.cs:379 | positional notation in base 2 to 16 reads back to the number |
| Text.ToBaseNoLeadingZero | src/Opa.Wasm/Builtins/Strings.cs:383 | only zero is written with a leading '0' |
| Text.PadLeftShape | src/Opa.Wasm/Builtins/Strings.cs:219 | String.PadLeft keeps the text at the right end of a field of the width, filling the rest with the character |
| Text.PadRightShape | src/Opa.Wasm/Builtins/Strings.cs:217 | String.PadRight keeps the text at the left end of a field of the width, filling the rest with the character |
| Text.AlignInField | src/Opa.Wasm/Builtins/Strings.cs:325 | the padding string.Format applies for an alignment it accepts: the text in its field with spaces, flush left for a negative alignment |
| Text.ZeroPaddedValue | src/Opa.Wasm/Builtins/Strings.cs:332 | padding a digit string on the left with zeros keeps its value |

## Left out

- The Wasmtime plumbing (linker, store, memory object, module instantiation, LinkImports, Dispose) is replaced by the abstract `Engine` and `Instance`. The opa_builtin0 to opa_builtin4 imports that forward to CallBuiltin are not modelled; CallBuiltin takes its addresses as a sequence.
- The opa_abort hook is not modelled. It only breaks into a debugger.
- JSON text is not parsed or serialised:
  - JsonDocument.Parse with EnumerateObject is the parameter `objectMembers`, a function of the text and of the AllowTrailingCommas option. The builtins metadata is read with the option off, the entrypoints metadata with it on.
  - JsonSerializer.Deserialize of each argument is `Builtin.reject`.
  - The builtin's invocation with serialization of its result is `Builtin.invoke`.
- Metadata members carry integers. The exceptions GetInt32 throws on a non-integral or non-numeric member are not modelled.
- Reflection-based builtin discovery is replaced by the `registry` map, name → builtin. Builtins.Lookup's InvalidOperation is kept.
- A builtin calling back into the policy while it is being evaluated is not modelled.
- Addresses and heap pointers are unbounded naturals. The 32-bit wrap of wasm addresses is not modelled.
- Memory is modelled per written text, keyed by its start address. Overlapping writes clobbering each other byte by byte are not modelled.
- Policy.OpaPolicy.SetData: after a failed load, the kept dataAddr points into heap that the failed load wrote over, because the new text is allocated and written from baseHeapPtr, where the current document lies (OpaPolicy.cs:312, 319-320). The model's evaluations see only the address, so they go on returning what they returned before the failed call. The source would evaluate against overwritten memory.
- Text lengths are counted in characters. The source allocates json.Length UTF-16 code units but writes UTF-8 bytes, so non-ASCII input would be sized differently. The model does not capture that difference.
- Strings are sequences of Unicode scalar values, where .NET counts UTF-16 code units. The lines below differ only for text outside the Basic Multilingual Plane.
- Strings.StringTextInField: the precision cut (`w[..p]`) and the PadLeft/PadRight widths count characters, not code units. .NET can also cut a surrogate pair in half here.
- Strings.StepString: the same difference in counting as StringTextInField.
- Strings.StepChar: %c of a string takes its first character. .NET takes its first code unit, which is half a surrogate pair for a string that starts outside the BMP.
- Strings.Render: the match index that %n writes counts characters, where m.Index counts UTF-16 code units.
- NumberFormat.AlignedText: the field width counts characters, not code units.
- Strings.Sprintf: a null Parameters array is not modelled. The parameters are a sequence, never null. With a null array every parameter reads as null, even for "0$".
- ClrValues.IntText: the minus sign is "-". The source formats with the current culture, whose NegativeSign could be another text.
- NumberFormat.HexDigits: the version-dependent upper limit that .NET's format parser sets on the precision of "{0:xN}" is not modelled. Every precision up to Int32.MaxValue pads.
- The functions in `Engine` are results of the compiled policy and are taken as given. Nothing is proved about what a policy computes.
- Policy.OpaPolicy.EvaluateById: the source enumerates the dictionary's values in its own order. The model takes any element of the value set at each step; because the loop only tests membership, the result does not depend on the order.
- Policy.OpaPolicy.Initialize: after a failure, the fields that earlier steps set are not stated. The source leaves them set as well, but then no policy is returned.
- The regular expression engine is replaced by the hand-written scanner in `Specifier`, proved to agree with the pattern (ScanSound, ScanComplete).
- Specifier.IsOtherDigit: `\d` is the table of Unicode Nd characters in the Basic Multilingual Plane. The table is stable since Unicode 7. A .NET runtime on an older Unicode version would accept fewer characters.
- Builtins/Regex.cs is not part of this model.
- Floating point is out of scope:
  - float, double and decimal values are not in the value domain;
  - the f, e, E, g and G conversions of an integral value report NotModelled;
  - Math.Round is therefore not modelled.
- NumberFormat.FormatNumber: the "n" native format that the ' flag selects depends on the culture. For a number it reports NotModelled. The grouping flag is still recognised and resolved.
- %p: the value domain has no IntPtr, so %p writes nothing and advances the counter, as the source does for every value but an IntPtr.
- Strings.CharText: Dafny characters are Unicode scalar values. A number in the surrogate range U+D800 to U+DFFF therefore reports NotModelled, though .NET would produce a lone surrogate `char`.
- Object.ToString of values other than integers, chars, strings and null is the text carried by `Other`.
- The unit tests, benchmarks and console sample are not part of this model.
