# Postfix whitelist updater and health reporter, modelled in Dafny

This project models the logic of the two Python daemons that run beside the
Postfix mail relay:

- the **Atlassian IP whitelist updater** (`AtlassianIPUpdater`,
  `postfix/ip_updater.py`). It fetches Atlassian's IP-range feed and skips the
  cycle when the MD5 of the body equals the stored `content_hash`. It keeps
  the CIDRs of the email/egress records, sorted. It backs up and rewrites
  `/etc/postfix/clients.cidr`, reloads Postfix, persists
  `{content_hash, last_update, ip_count}` and sends a notification;
- the **health reporter** (`HealthCheckHandler`, `postfix/health_check.py`). It
  aggregates `postfix status`, `postqueue -p` and `postfix check` into a
  health verdict, computes queue statistics, maps health to 200/503 on
  `/postfix`, and dispatches `/postfix`, `/status`, `/` and 404.

Everything the daemons do outside the process is an input to the model. This
covers the HTTP exchange (status code, body hash, parsed body), every
subprocess result (`Completed(returncode, stdout)` or `Raised`), whether the
`cp`, the whitelist write and the state-file write succeeded, and all
timestamps.

Modules:

- `Common`: option and subprocess outcome.
- `Text`: Python's `in`, `strip`, `splitlines`, `join`/`split` and `str(n)`.
- `StringOrder`: Python string order and `sorted`.
- `Feed`: fetch decision and `extract_email_ips`.
- `Whitelist`: the file format and a reader for it.
- `Updater`: class `IpUpdater`, whose fields are the whitelist file, backups,
  state record, last notification severity and the log of Postfix commands.
- `Health`: the health reporter.

Details of the code that the model keeps:

- Only 4xx and 5xx responses are fetch errors, because `raise_for_status`
  raises only for those. Other non-2xx codes go on to JSON parsing.
- `reload_postfix` returns False without a reload when `postfix start` fails.
- `update_ips` never deduplicates CIDRs: a CIDR carried by several selected
  records is written once per record.

## Model

| member | source | states |
|---|---|---|
| `Feed.FetchAtlassianData` | postfix/ip_updater.py:76-100 | a request error, a 4xx/5xx status, a stored non-empty hash equal to the current one, a non-object body or a missing `items` all give None; otherwise the items tagged with the current hash (both directions) |
| `Feed.UnchangedIgnoresBody` | postfix/ip_updater.py:84-90 | when the hash is unchanged the body is never looked at: any two bodies give None |
| `Feed.EmailEgressCidrs` | postfix/ip_updater.py:104-109 | the list the loop builds (records with "email" in product, "egress" in direction and a non-empty cidr, in feed order) has at most one entry per record and no empty entry |
| `Feed.EmailEgressCidrsCount` | postfix/ip_updater.py:104-109 | each CIDR occurs in the filtered list exactly as often as records meeting all three conditions carry it (nothing added, nothing dropped, duplicates kept) |
| `Feed.EmailEgressCidrsLength` | postfix/ip_updater.py:104-109 | the filtered list has one entry per selected record |
| `Feed.EmailEgressCidrsMembers` | postfix/ip_updater.py:104-109 | a CIDR is in the filtered list iff some record with "email" in product, "egress" in direction and that non-empty cidr exists |
| `Feed.ExtractEmailIps` | postfix/ip_updater.py:102-111 | the loop-and-append then `sorted` returns an ascending permutation of the selected CIDRs, as long as the number of selected records |
| `StringOrder.SortStrings` | postfix/ip_updater.py:111 | `sorted` on strings: the result is ascending in Python's string order and is a permutation of the input |
| `StringOrder.SortedPermutationUnique` | postfix/ip_updater.py:111 | two ascending permutations of the same strings are equal, so the sorted list depends only on the selected CIDRs |
| `StringOrder.LexLeTotal` | postfix/ip_updater.py:111 | any two strings are comparable in Python's order |
| `StringOrder.LexLeTransitive` | postfix/ip_updater.py:111 | Python's string order is transitive |
| `StringOrder.LexLeAntisymmetric` | postfix/ip_updater.py:111 | strings that compare both ways are equal |
| `Whitelist.ContentLines` | postfix/ip_updater.py:122-129 | three header lines (`# Generated at <time>`, `# Source: <url>`, `# Total IP ranges: <count>`), a blank line, one `<cidr> OK` line per range in input order, and a trailing empty element |
| `Whitelist.Render` | postfix/ip_updater.py:122-134 | the joined content ends with a newline |
| `Whitelist.ParseContentLines` | postfix/ip_updater.py:122-129 | the generated lines read back as exactly the ranges they were built from, and the count header agrees |
| `Whitelist.WhitelistRoundTrip` | postfix/ip_updater.py:122-134 | reading the written file back gives the ranges written, in order, so the number of `OK` lines equals the count, provided no input contains a newline |
| `Text.SplitJoin` | postfix/ip_updater.py:134 | splitting the `'\n'.join` of newline-free lines on `'\n'` gives the lines back |
| `Text.Join` | postfix/ip_updater.py:134 | `'\n'.join`: a single part is returned as is, and the first part starts the result |
| `Text.JoinSeparatorCount` | postfix/ip_updater.py:134 | joining separator-free parts inserts exactly one separator between each two: one fewer than there are parts |
| `Text.Decimal` | postfix/ip_updater.py:125 | `str(len(ip_ranges))` is a non-empty string of digits without a leading zero whose decimal value is the count |
| `Updater.IpUpdater.constructor` | postfix/ip_updater.py:26-34 | the updater starts on the given file, backups and state, with no notification and no commands run |
| `Updater.IpUpdater.UpdateCidrFile` | postfix/ip_updater.py:113-141 | an existing file is backed up under the time suffix with its prior content; a failed copy aborts before writing; success iff (no file or copy ok) and write ok; on success the file is the rendered content, otherwise unchanged |
| `Updater.IpUpdater.ReloadPostfix` | postfix/ip_updater.py:143-174 | status runs first; start runs iff status exits non-zero; reload runs iff status exits 0 or start exits 0; a failed start, or an exception from `status` or `start`, returns False without a reload; an exception from `reload` returns False; otherwise the result is reload exit 0 |
| `Updater.IpUpdater.ApplyRanges` | postfix/ip_updater.py:196-218 | a failed file update gives False, an 'error' severity and leaves state and Postfix alone; after a write the state is saved (hash, time, count) whatever the reload gave, and the severity is 'success' iff the reload succeeded, else 'warning' |
| `Updater.IpUpdater.UpdateIps` | postfix/ip_updater.py:176-218 | "no update" returns True and changes nothing; no matching range returns False with 'error' and leaves file, backups, state and Postfix alone; failed file update as above; after a write the state holds the fetched hash and the number of ranges, the result is the reload's; the saved hash makes the same body "no change" next time; the persisted count keeps matching the file |
| `Health.GetHealthStatus` | postfix/health_check.py:114-171 | each check is False when its command raises; running and config valid are exit code 0; the queue is healthy iff `postqueue` exits 0 and the stripped listing contains "Mail queue is empty" or has fewer than 50 lines; healthy is the conjunction of the three |
| `Health.ListingStats` | postfix/health_check.py:187-200 | 'empty' iff the stripped listing contains the marker; otherwise the estimate is the line count minus two, or 0 for fewer than two lines, and the sample is the first min(5, lines) lines |
| `Health.QueueVerdictMatchesStats` | postfix/health_check.py:141-152 | on the same listing, the health check's queue verdict is healthy iff the statistics say 'empty' or estimate fewer than 48 messages |
| `Health.QueueListingHealthy` | postfix/health_check.py:142-147 | the queue classifier: a listing containing "Mail queue is empty" is healthy, a listing shorter than 50 characters is healthy, and an unhealthy listing has at least 50 lines |
| `Health.QueueHealthyCountsNewlines` | postfix/health_check.py:142-147 | for output whose only line break is `'\n'`, the stripped listing is healthy iff it reports an empty queue or holds fewer than 49 newlines |
| `Health.GetPostfixMetrics` | postfix/health_check.py:173-218 | queue stats stay empty on a non-zero exit, are an error on an exception, else the listing statistics; process info carries the exit code, the stripped output and running = exit 0, or an error on an exception |
| `Health.HealthCheckReply` | postfix/health_check.py:55-76 | status 200 with "OK" iff healthy, 503 with "Service Unavailable" iff not; `checks` mirror the three booleans |
| `Health.RouteOf` | postfix/health_check.py:29-40 | `/postfix`, `/status` and `/` go to their handlers, every other path is not found |
| `Health.DoGet` | postfix/health_check.py:29-53 | 404 iff the path is not one of the three; `/postfix` replies with the health report of the three checks (200/"OK" iff all pass, else 503); `/status` is always 200 with the same health status, and queue stats and process info from its own `postqueue -p` and `postfix status` as `get_postfix_metrics` computes them; `/` returns the service descriptor |
| `Text.Contains` | postfix/health_check.py:145 | Python's substring test: true iff the pattern occurs at some index |
| `Text.Strip` | postfix/health_check.py:142 | `strip()` returns a slice of the input with only whitespace outside it and no whitespace at either end |
| `Text.SplitLines` | postfix/health_check.py:146 | `splitlines()` gives no more lines than characters, none containing a line break |
| `Text.SplitLinesNewlineOnly` | postfix/health_check.py:146 | for text whose only line break is `'\n'`, `splitlines()` equals `split('\n')` without the empty part a final newline leaves (and no lines for `""`) |
| `Text.SplitLinesCount` | postfix/health_check.py:146 | for such text the number of lines is the number of newlines, plus one for an unterminated last line |

## Left out

- Subprocess execution (`postfix status/check/start/reload`, `postqueue -p`, `cp`) is left out. Only its exit code and output (or the fact that it raised) are inputs.
- The HTTP fetch, MD5 and JSON parsing are left out. The response status, the hash (an opaque string compared for equality) and the parsed body are inputs.
- The Slack notification is left out: the webhook check, the payload, the colour map and the POST. The model records only the severity that `update_ips` asks for.
- The startup 'info' notification of `run` and the crash notification of the `__main__` block are left out.
- `datetime` and `time.time()` are left out. Header time, `last_update` and the backup suffix are inputs. The backup file name is represented by its numeric suffix, so two backups in the same second overwrite, as `cp` would.
- `load_state`/`save_state` file I/O is left out. The state record is a field, and a failed save leaves it unchanged. A state file that exists but cannot be parsed (which loads as `{}`) is not distinguished from the empty record.
- A whitelist write that fails is modelled as leaving the file unchanged. A file truncated by a write that fails midway is not modelled.
- Feed values outside `Record` are not modelled: `product` and `direction` are lists of strings and `cidr` is a string or absent. The code accepts other JSON shapes, with the effects below. Where a shape makes `update_ips` raise, the exception leaves `update_ips`. On the first call (ip_updater.py:232), which is outside any `try`, it ends the updater through the crash handler of the `__main__` block (ip_updater.py:244-251). On later calls, the loop's handler (ip_updater.py:239-240) logs it and the loop goes on.
  - `items` empty (`[]`, `{}` or `""`): nothing is selected, so the cycle takes the "No email IPs found" path.
  - `items` a non-empty string or object, or a record that is not an object: `item.get` raises.
  - `items` null or a number: iterating it raises.
  - `product` or `direction` a string: `in` is a substring test, so `"email-relay"` selects the record.
  - A null, number or boolean `product` or `direction` makes `in` raise.
  - A truthy non-string `cidr` is kept and written with `str`, such as `5 OK`. Numbers alone sort numerically; mixed with strings, `sorted` raises.
- `Updater.IpUpdater.UpdateIps`: the count invariant (persisted `ip_count` equals the `OK` lines of the file) is stated only when the state file can be written and neither the header text nor the CIDR of a selected record contains a newline. A failed save after a successful write leaves the old count beside the new file, and the source accepts that.
- The `while True`/`time.sleep` loops of `run` and `run_forever`, and the server thread of `HealthCheckService.start`, are left out. They are scheduling and concurrency.
- The `config_info` part of `get_postfix_metrics` (`os.stat` of three files) and the `files`/`configuration` part of `/status` are left out. They are file system and environment I/O.
- The 500 replies of `handle_health_check` and `handle_status_check` are left out. Every command failure is caught inside the checks, and failures while writing the response are I/O.
- `urlparse` is left out. `DoGet` takes the path part of the URL.
- `keycloak/.../OpenmrsIdMapper.java` is not part of this model. It only concatenates a user name, "@" and a domain over Keycloak APIs.
