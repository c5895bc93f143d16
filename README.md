# intercept start-up and shutdown, modelled in Dafny

This project models the configuration core of the TCPCopy interception agent (`intercept`),
`src/interception/main.c`. The agent runs on the test server. It captures the responses the
test server sends to replicated requests and passes them back to the replication agent. The
model covers what `main.c` does around its event loop:

- **Defaults.** `settings_init` gives the settings record its defaults. `set_combined_num`
  takes a new combine count only when it lies in range.
- **Pass-through IPs.** `retrieve_ip_addr` reads the `-x` list of IPs into a fixed table.
- **Targets.** `retr_target_addrs` and `parse_target` read the `-o` list of
  `ip:port` targets into a table of pairs. The comma or colon they cut with a NUL is
  written back, so the list is unchanged afterwards.
- **Capture filter.** `extract_filter` builds the pcap filter `"tcp and (... or ...)"` from
  the targets.
- **Normalisation.** `set_details` computes the page-size shift, reads the lists, picks the
  capture device, copies a user filter or builds one, and maps a small netfilter queue
  length to the sentinel -1.
- **Life cycle.** `main` creates the two memory pools, the signal handler records the stop
  signal, and `server_release_resources` tears the agent down.

Files and modules:

- `net.dfy` (`Net`): 16- and 32-bit integers, the `uint16_t` conversion, and `htons`.
- `cstrings.dfy` (`CStrings`): C strings read up to the first NUL; `strlen`, `strchr`,
  `strcpy` and `strncpy`; splitting a list at a separator.
- `targets.dfy` (`Targets`): the `ip:port` pair and `parse_target`.
- `filter.dfy` (`FilterBuilder`): `extract_filter`, with a reference definition of the
  filter it should build.
- `settings.dfy` (`Settings`): the settings record `srv_settings` as the class
  `ServerSettings`, plus the loops of `retrieve_ip_addr` and `retr_target_addrs`.
- `lifecycle.dfy` (`Lifecycle`): pool creation and the teardown are traces of events, and
  a replay of the trace checks that the pools are used safely; the signal handler records
  the signal in `tcOver`.

Arguments and foreign code:

- The build switches (`TC_ADVANCED`, `TC_PCAP`, `TC_NFQUEUE`, `TC_COMBINED`, `TC_SINGLE`,
  `TC_UDP`) are fields of a `Build` value passed to the operations.
- The code of `inet_addr`, `atoi`, `construct_filter` and `retrieve_devices` is not part
  of this model. Each is a function-typed parameter.
- The outcomes of `getpagesize`, `daemonize` and `tc_create_pool` are parameters too.

The header constants are defined in the headers `main.c` includes (`xcopy.h`, `intercept.h`),
which this model does not cover. Their values are fixed here:

- `MAX_ALLOWED_IP_NUM` = 32;
- `MAX_FILTER_ITEMS` = 32;
- `COMB_MAX_NUM` = 16;
- `MAX_FILTER_LENGH` = 4096;
- `DEFAULT_DEVICE` = `"any"`;
- `SERVER_PORT` = 36524, the value the usage text prints.

## Model

| member | source | states |
|---|---|---|
| Net.ToU16 | src/interception/main.c:116 | `tmp_port = atoi(port_s)` keeps the `int` modulo 2^16, as a `uint16_t` |
| Net.Htons | src/interception/main.c:117 | `htons` swaps the two bytes of the port: the low byte of the result is the high byte of the argument and the reverse |
| Net.HtonsInvolutive | src/interception/main.c:117 | `htons` is a byte swap, so `ntohs(htons(x)) == x` and the stored port reads back as the number given |
| Net.HtonsZero | src/interception/main.c:117 | a port is 0 in network order exactly when it is 0 in host order, so the wildcard test in `extract_filter` means port 0 |
| CStrings.Strchr | src/interception/main.c:104 | `strchr` on the C string at an offset: -1 exactly when the character is absent before the NUL, else the index of its first occurrence |
| CStrings.StrLen | src/interception/main.c:70 | `strlen` counts the characters before the first NUL: none of them is NUL, and the cell after them, when there is one, is |
| CStrings.StrCpy | src/interception/main.c:399 | `strcpy` writes the string and its NUL and leaves every later cell alone; the C string at the target is then the string |
| CStrings.StrNCpy | src/interception/main.c:73 | `strncpy(dst, src, n)` copies the C string up to `n` characters and pads the rest of the `n` with NUL |
| CStrings.SplitLength | src/interception/main.c:138-142 | a list has one token per separator plus one |
| CStrings.JoinSplit | src/interception/main.c:159-172 | joining the tokens of a list with the separator gives back the list |
| CStrings.SplitJoin | src/interception/main.c:159-172 | splitting a join of separator-free tokens gives back the tokens |
| CStrings.OffsetSplit | src/interception/main.c:170 | after moving `p` past `k` tokens and their commas, the rest of the list splits into the remaining tokens |
| Targets.ParseTarget | src/interception/main.c:98-118 | `parse_target` returns the pair its token denotes (`ParseToken`) and leaves the input array as it found it, the NUL it wrote over the `':'` undone |
| Targets.ReadIp | src/interception/main.c:107-113 | the IP half: cuts at the `':'`, reads the address of the text before it with `inet_addr`, and restores the `':'` |
| Targets.ParseTokenCases | src/interception/main.c:104-117 | without `':'` the IP is 0 and the whole token is the port; with one, the text before the first `':'` is the IP and the text after it the port |
| Targets.ParseTokenPort | src/interception/main.c:116-117 | reading the stored port back with `ntohs` gives the port number modulo 2^16 |
| Targets.ParseListLast | src/interception/main.c:159-172 | the pair list has one entry per comma plus one, and the last entry is the parse of the text after the final comma, even when that text is empty |
| Settings.PagesizeShift | src/interception/main.c:430 | the shift loop adds one per non-zero halving of the page size: `2^(shift - shift0) <= pagesize < 2^(shift - shift0 + 1)`, where `shift0` is the previous `tc_pagesize_shift` (0 at start-up) |
| Settings.PageShiftIsLog2 | src/interception/main.c:430 | the shift is floor(log2(pagesize)) for every page size of at least 1 |
| Settings.PageShiftOfPowerOfTwo | src/interception/main.c:430 | for a page size of 2^k the shift is exactly k |
| Settings.BitLengthBounds | src/interception/main.c:430 | the number of halvings brackets its argument between consecutive powers of two |
| Settings.NormalQueueLen | src/interception/main.c:479-481 | the queue length that remains is -1 or above 1024; it is -1 exactly when the given length is at most 1024, and a length above 1024 is kept |
| Settings.NormalQueueLenIdempotent | src/interception/main.c:479-481 | normalising twice is normalising once, and the default -1 is already normal |
| Settings.PassedIpsCount | src/interception/main.c:65-91 | `retrieve_ip_addr` stores one address per comma plus one, capped at `MAX_ALLOWED_IP_NUM` |
| Settings.PassedIpsOfJoin | src/interception/main.c:65-91 | a list written as addresses joined by commas reads back address by address |
| Settings.CopyToken | src/interception/main.c:73 | `strncpy(tmp, p, len)` into the zeroed scratch buffer leaves the token as a C string there |
| Settings.NextComma | src/interception/main.c:66-71 | `strchr(p, ',')` at token `i` either finds the comma that ends the token, and the next token starts after it, or finds none and the token is the last one |
| Settings.TokenEnd | src/interception/main.c:66-71 | the token length is the distance to the comma, or `strlen` of the rest, and the copied text is exactly the token |
| Settings.StoreToken | src/interception/main.c:66-75 | one pass of the loop stores the address of token `count` in slot `count` and touches no other slot |
| Settings.ReadIpList | src/interception/main.c:62-91 | the loop fills the table's prefix with `PassedIps`: one address per token, in order, up to the cap; the slots after the count keep their old contents |
| Settings.CountTargets | src/interception/main.c:138-142 | `tf->num` is the number of commas before the NUL plus one |
| Settings.ParseCut | src/interception/main.c:164-168 | cutting the comma with a NUL, parsing and writing the comma back gives the token's pair and leaves the list as it was |
| Settings.ParseOne | src/interception/main.c:162-170 | one pass of the loop stores the pair of token `i` in slot `i` and moves past the comma, or stops at the last token |
| Settings.ParseTargets | src/interception/main.c:159-172 | the loop fills the table with `ParseList` of the list, one pair per token in order, and leaves the list unchanged |
| Settings.ServerSettings.constructor | src/interception/main.c:15 | the global record starts zeroed: no lists, an empty pass-through table and an all-NUL filter buffer |
| Settings.ServerSettings.SettingsInit | src/interception/main.c:500-516 | port `SERVER_PORT`, hash size 65536 and no bound IP; combine count `COMB_MAX_NUM`, no connection protection and queue length -1, each only under its build switch |
| Settings.ServerSettings.SetCombinedNum | src/interception/main.c:180-185 | the combine count changes exactly when 0 <= num < `COMB_MAX_NUM`, so a count in range stays in range |
| Settings.ServerSettings.RetrieveIpAddr | src/interception/main.c:53-94 | the pass-through table holds `PassedIps` of the `-x` list, `passed_ips.num` is its length, and the result is 1 |
| Settings.ServerSettings.RetrTargetAddrs | src/interception/main.c:126-175 | without a list the result is -1 and nothing changes; otherwise the result is 0, the new table has one pair per comma plus one holding `ParseList` of the list, and the list is unchanged |
| Settings.ServerSettings.SelectDevice | src/interception/main.c:454-461 | the device `DEFAULT_DEVICE` is replaced by none; any other device is expanded by `retrieve_devices`; without a device nothing changes |
| Settings.ServerSettings.CopyUserFilter | src/interception/main.c:465-470 | -1 exactly when the user filter has at least `MAX_FILTER_LENGH` characters, and the buffer is then untouched; otherwise the filter's characters are copied without their NUL, so over a zeroed buffer they read back as the user filter |
| Settings.ServerSettings.AdvancedDetails | src/interception/main.c:440-476 | reads the targets when there is a list; fails without one unless pcap is used; under pcap it selects the device, then copies the user filter or builds the filter from the targets read (`FilterBuilt`) |
| Settings.ServerSettings.ListDetails | src/interception/main.c:432-476 | the list stages: without `TC_ADVANCED` a given `-x` list is read into the pass-through table; with it the targets, device and filter stages run; -1 exactly on the early failures, every field outside a stage left as it was, the `-o` list unchanged and the buffer cells past the filter untouched |
| Settings.ServerSettings.SetDetails | src/interception/main.c:420-496 | the page-size shift, then the pass-through list (basic) or targets, device and filter (advanced), then the queue length; -1 exactly on the early failures or a failed daemonize, with each field changed only by its own stage: the `-o` list reads back unchanged in every build, the pass-through slots after `passed_ips.num` keep their old contents, and the filter cells after the built filter are untouched |
| FilterBuilder.OpenFilter | src/interception/main.c:375-382 | the buffer starts with `"tcp and ("` (`"udp and ("` under `TC_UDP`) and `pt` points at the NUL after it |
| FilterBuilder.AppendClause | src/interception/main.c:398-403 | one usable target appends `" or "` when its index is positive, then its clause, and leaves `pt` at the new NUL |
| FilterBuilder.EmitTargets | src/interception/main.c:384-404 | the loop writes exactly `Emit(...)` after the head and returns the clause counter |
| FilterBuilder.CloseFilter | src/interception/main.c:406 | the closing `")"` makes the buffer's C string the text so far plus `")"` |
| FilterBuilder.ExtractFilter | src/interception/main.c:367-416 | the buffer's C string is `FilterText` of the targets, the cells after it are untouched, and the "filter is not set" case happens exactly when no target is usable |
| FilterBuilder.EmitSkip | src/interception/main.c:388-394 | a wildcard target, or any target once the cap is reached, adds nothing |
| FilterBuilder.EmitAppend | src/interception/main.c:396-403 | a usable target below the cap adds one clause and one count |
| FilterBuilder.EmitCount | src/interception/main.c:384-404 | the counter equals the number of usable targets capped at `MAX_FILTER_ITEMS`, the same for the loop as written and for the corrected one |
| FilterBuilder.KeptTargets | src/interception/main.c:388-394 | at most `MAX_FILTER_ITEMS` clauses, each of a target that is not a wildcard |
| FilterBuilder.EmitSaturated | src/interception/main.c:392-394 | after the counter reaches the cap, later targets change nothing |
| FilterBuilder.EmitPrefix | src/interception/main.c:384-404 | the text and the counter only grow as the loop advances |
| FilterBuilder.FilterTextNoNul | src/interception/main.c:403-406 | clauses without NUL make a filter without NUL, so the buffer reads back as the whole filter |
| FilterBuilder.NoUsableTarget | src/interception/main.c:408-410 | the counter is 0 exactly when no target is usable, and the filter is then `"tcp and ()"` |
| FilterBuilder.TwoTargets | src/interception/main.c:384-406 | two usable targets give their two clauses joined by one `" or "` in one pair of parentheses |
| FilterBuilder.EmitAgreesWhenFirstUsable | src/interception/main.c:398-400 | when the first target is usable, the loop as written and the corrected loop write the same text |
| FilterBuilder.FilterTextWhenFirstUsable | src/interception/main.c:367-416 | the filter as written is then the head, the kept clauses joined by `" or "`, and `")"` |
| FilterBuilder.LeadingOr | src/interception/main.c:398-400 | as written, wildcards before the first usable target put `" or "` straight after the `"("` |
| FilterBuilder.LeadingOrExample | src/interception/main.c:398-400 | for the targets of `-o 0,80` the filter as written is `"tcp and ( or " + clause + ")"`; the corrected one has no `" or "` |
| FilterBuilder.EmitFixedIsJoin | src/interception/main.c:396-403 | with the separator chosen by the counter, the loop writes exactly the clauses of the kept targets joined by `" or "` |
| FilterBuilder.FixedFilterTextIsJoin | src/interception/main.c:367-416 | the corrected filter is always the head, the kept clauses joined by `" or "`, and `")"` |
| FilterBuilder.EmitVsFixed | src/interception/main.c:396-403 | the loop as written counts the same clauses as the corrected one, and its text is the corrected text with one extra `" or "` in front exactly when the first target is a wildcard and a clause has been written |
| FilterBuilder.EmitVsFixedStep | src/interception/main.c:396-403 | one usable target below the cap keeps that relation between the two loops |
| FilterBuilder.FilterTextIsJoin | src/interception/main.c:367-416 | for every target list, the filter as written is the head, a stray `" or "` exactly when the list starts with a wildcard and some target is usable, the kept clauses joined by `" or "`, and `")"` |
| Lifecycle.Agent.SignalHandler | src/interception/main.c:37-41 | the handler stores the signal number in `tc_over` |
| Lifecycle.Agent.constructor | src/interception/main.c:581-582 | the process starts with no stop signal recorded and no pool created, the state pool creation starts from |
| Lifecycle.Agent.CreatePools | src/interception/main.c:581-589 | `pool` is created first, then `cpool`; if `cpool` fails, `pool` is destroyed before -1 is returned; 0 only when both exist |
| Lifecycle.Agent.ServerReleaseResources | src/interception/main.c:18-34 | the seven teardown steps are appended to the trace in the source's order |
| Lifecycle.PoolSetupReplay | src/interception/main.c:581-589 | pool creation never misuses a pool; it ends holding both pools when both allocations succeed and none otherwise |
| Lifecycle.TeardownReplay | src/interception/main.c:30-31 | run while both pools exist, the teardown destroys each once and leaves none |
| Lifecycle.RunReleasesPools | src/interception/main.c:581-619 | start-up followed by the teardown, or a start-up stopped by a failed pool creation, never creates a pool twice, never frees one twice or before it exists, and leaves no pool |
| Lifecycle.TeardownOrder | src/interception/main.c:23-33 | the steps are distinct; tunnels go first and the log last; the server stops before obsolete events are released, the loop finishes before the pools go, and `pool` goes before `cpool` |

## Left out

- `read_args`, `usage`, version printing, `output_for_debug`, and every `tc_log_info` and
  `fprintf` message. They are command-line parsing and console or log output.
- `set_signal_handler`, `sigignore(SIGHUP)` and the signal table. They are OS calls. The
  handler itself is modelled.
- `tc_time_init`, `tc_log_init`, `tc_event_loop_init`, `server_init`, the timers,
  `tc_event_proc_cycle`, and the failure returns of `main` after pool creation. They are the
  reactor and network I/O, and their code is not part of this model.
- The memory pool allocator. Allocation in `retr_target_addrs` always succeeds here, so its
  `tc_palloc` failure returns (main.c:146-155) are not modelled. In `main` the success of each
  `tc_create_pool` is a parameter.
- `tc_pagesize = getpagesize()` (main.c:428) and `tc_cacheline_size` (main.c:429). The page
  size is a parameter of `SetDetails`, which uses it only for the shift; neither global is
  stored, since nothing modelled reads them.
- `Net.Htons`: models a little-endian host. On a big-endian host `htons` is the identity.
- `Settings.ServerSettings.RetrieveIpAddr`: requires every token read to be shorter than the
  32-character scratch buffer (`TokensFit`). The source copies `len` characters without a
  check, so a longer token overruns `tmp`; that behaviour is undefined and is not modelled.
- `FilterBuilder.ExtractFilter`: requires the filter to fit the buffer and the clauses to be
  free of NUL. The source checks neither: `construct_filter` writes without a bound.
- `Settings.ServerSettings.SetDetails`: `daemonize` is reduced to its outcome. The result of
  `retr_target_addrs` is ignored, as in the source, so a failure there does not stop
  `set_details`.
- `Settings.ServerSettings.SetDetails`: writes the queue length before the list stages,
  under the condition that they will not fail (`FailsEarly`), where the source writes it
  after them. The list stages neither read nor write it, so the record ends the same.
- Pointers and aliasing inside the record: the lists are `array<char>` fields, and the
  device list and user filter are values.

## Findings

| source | as written | input that shows it | evidently intended | confidence | as-written member | corrected member |
|---|---|---|---|---|---|---|
| src/interception/main.c:398 | `" or "` is written before a clause when the target's index `i` is positive | `-o 0,80` (a wildcard target, then port 80 on any address) gives a filter that starts `"tcp and ( or "`, which pcap cannot compile | `" or "` before every clause but the first one written, chosen by the clause counter (`cnt > 1` after the increment) | not executed | FilterBuilder.LeadingOrExample | FilterBuilder.FixedFilterTextIsJoin |

`ExtractFilter` and `SetDetails` follow the code as written, so that they describe what the
agent actually does. The corrected loop, `FilterBuilder.EmitFixed`, is proved to write the
proper join. The as-written loop is proved to agree with it whenever the first target is
usable (`FilterBuilder.EmitAgreesWhenFirstUsable`), and for every target list it is the
proper join with one stray `" or "` in front exactly when the list starts with a wildcard
and some target is usable (`FilterBuilder.FilterTextIsJoin`).
