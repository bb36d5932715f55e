# mqttb server logic in Dafny

mqttb is a small MQTT broker with an HTTP snapshot store on the side. The
broker engine (topic matching, fan-out, QoS 1 tracking, retained messages,
keep-alive) is the Aedes library; `server.ts` wraps it. This project models
the decisions that `server.ts` makes itself, as pure functions with lemmas:

- **CONNECT credential check** (`Authentication`): the `authenticate` hook over
  the built-in user table. It admits a client or refuses it with CONNACK
  return code 5, "not authorized" (section 3.2.2.3 of MQTT 3.1.1). A falsy user
  name (absent or "") is admitted whatever the password. Otherwise the
  supplied password must strictly equal the table entry. A name missing from
  the table looks up to `undefined`, so such a user is admitted exactly when
  it sends no password.
- **Snapshot file naming and listing** (`Snapshots`, with `Strings` and
  `Sorting`):
  - a POST stores `<name>-<timestamp>.json`, where the timestamp is the ISO
    time with `:` and `.` turned into `-`;
  - a POST answers the stored name with its first ".json" removed;
  - GET and DELETE look up `<id>.json`;
  - the listing keeps the `.json` entries, removes the first ".json" from
    each, sorts the result and reverses it.
  
  The clock reading and the directory contents are inputs.
- **Publish log** (`PublishLog`): one line `<iso> PUBLISH <client> <topic>
  <payload>\n` per publish. Topics starting with `$SYS` are skipped. A missing
  client, or one with an empty id, is logged as `broker`.

The repository's auth test script (`test-auth.ts`) expects a client without
credentials to be refused. The server admits such a client, and the model
follows the server (`Authentication.AnonymousAccepted`).

## Model

| member | source | states |
|---|---|---|
| `Authentication.Authenticate` | server.ts:39-63 | a refusal only ever carries return code 5, and never happens for an absent or empty user name |
| `Authentication.AuthenticateConnect` | server.ts:5-9 | the hook over the built-in table answers either accept or reject with code 5, nothing else |
| `Authentication.AnonymousAccepted` | server.ts:47-51 | an absent or empty user name is admitted whatever the password |
| `Authentication.KnownUserRightPasswordAccepted` | server.ts:53-57 | a user in the table who sends the stored password is admitted |
| `Authentication.KnownUserWrongPasswordRejected` | server.ts:59-62 | a user in the table who sends a different password, or none, is refused with code 5 |
| `Authentication.UnknownUserAcceptedIffNoPassword` | server.ts:45-62 | a non-empty name missing from the table is admitted iff no password is sent (`undefined === undefined`); with any password it is refused with code 5 |
| `Authentication.AuthenticateAdmitsExactly` | server.ts:45-62 | accept iff the name is falsy, or the password equals the stored one, or both are absent; every other outcome is reject with code 5 |
| `Authentication.BuiltInTableExamples` | server.ts:5-9 | over the built-in table: admin/secret123 and device2/dev2pass admitted, admin with a wrong or missing password refused, no credentials admitted, an unknown name admitted without a password and refused with the empty password |
| `Authentication.Lookup` | server.ts:54 | `USERS[username]` is the stored password exactly when the name is in the table, and `undefined` otherwise |
| `Authentication.Falsy` | server.ts:48 | `!username` holds for exactly the two falsy values, an absent name and "" |
| `Strings.ReplaceFirst` | server.ts:167 | `replace` with a string pattern leaves a string without the pattern unchanged, and otherwise changes its length by the difference between replacement and pattern (`Strings.ReplaceFirstLength`) |
| `Strings.ReplaceFirstAt` | server.ts:237 | when the first occurrence of the pattern is at `i`, that occurrence and no other is replaced |
| `Strings.ReplaceFirstLength` | server.ts:237 | replacing the first occurrence changes the length by the difference between replacement and pattern |
| `Strings.LexLePrefix` | server.ts:168 | in the order `sort()` applies (`Strings.LexLe`), a string sorts no later than any string it begins, and after each of its proper prefixes |
| `Strings.LexLeFirstDifference` | server.ts:168 | the first position at which two strings differ decides their order |
| `Strings.LexLeReflexive` | server.ts:168 | every string sorts no later than itself |
| `Strings.LexLeTotal` | server.ts:168 | any two strings are comparable |
| `Strings.LexLeAntisymmetric` | server.ts:168 | two strings each sorting no later than the other are equal |
| `Strings.LexLeTransitive` | server.ts:168 | the order is transitive |
| `Sorting.Sort` | server.ts:168 | the result is in ascending string order and is a permutation of the input |
| `Sorting.Reverse` | server.ts:169 | the result holds the input's elements in reverse positions, as a permutation |
| `Sorting.SortDescending` | server.ts:168-169 | `sort()` then `reverse()` yields a non-increasing permutation of the input |
| `Sorting.DescendingUnique` | server.ts:168-169 | two non-increasing sequences with the same elements are equal, so the listing order is fully determined |
| `Snapshots.SanitiseTimestamp` | server.ts:216 | same length as the ISO time; no `:` or `.` remains; every `:` and `.` becomes `-`; every other character is unchanged |
| `Snapshots.StoredFilename` | server.ts:217 | the stored name starts with the snapshot name, then `-`, then exactly the timestamp, and ends with the ".json" extension |
| `Snapshots.StripFirstJson` | server.ts:167 | a file name without ".json" is reported unchanged; otherwise exactly one ".json" (five characters) is removed, the first one (see `Strings.ReplaceFirstAt`) |
| `Snapshots.LookupFilename` | server.ts:249 | the file GET and DELETE look for is the id followed by the ".json" extension |
| `Snapshots.LookupStripsBack` | server.ts:249 | removing the extension from an id's lookup name gives the id back |
| `Snapshots.FirstJsonOfStoredFilename` | server.ts:217 | in `<name>-<timestamp>.json` the first ".json" is the extension when the name holds none, and otherwise the name's first ".json" |
| `Snapshots.SaveSnapshot` | server.ts:213-239 | the stored file is `<name>-<sanitised time>.json`; the answered filename is `<name>-<timestamp>` when the name holds no ".json", and otherwise the name's first ".json" is the part removed; in the first case `<answered>.json` is the stored file |
| `Snapshots.SaveHealth` | server.ts:272-291 | the legacy route's timestamp is the sanitised ISO time; it answers `health-<timestamp>` and stores `health-<timestamp>.json` |
| `Snapshots.SavedHealthIsFetchable` | server.ts:247-256 | a GET of the id `POST /api/health` answered serves back the content it stored |
| `Snapshots.GetSnapshot` | server.ts:247-256 | found iff `<id>.json` exists with non-empty content, which it then returns |
| `Snapshots.DeleteSnapshot` | server.ts:259-267 | reports deleted iff `<id>.json` exists; afterwards exactly that file is gone and every other file is unchanged |
| `Snapshots.SavedSnapshotIsFetchable` | server.ts:213-256 | for a name without ".json", a GET of the id a POST answered returns the content that POST stored |
| `Snapshots.SavedSnapshotIsDeletable` | server.ts:213-267 | for a name without ".json", a DELETE of the answered id removes exactly the stored file |
| `Snapshots.JsonEntries` | server.ts:166 | each entry ending in ".json" is kept as often as it occurs; no other entry is kept |
| `Snapshots.ListFiles` | server.ts:164-170 | the listing is non-increasing; it holds one id per ".json" entry, each the entry with its first ".json" removed, as a multiset |
| `Snapshots.ListFilesCharacterised` | server.ts:164-170 | a sequence is the listing iff it is non-increasing and has exactly the stripped ".json" entries as its elements |
| `Snapshots.ListFilesIgnoresDirectoryOrder` | server.ts:165-169 | the listing is the same whatever order the directory returns its entries in |
| `Snapshots.ListFilesSkipsOtherEntries` | server.ts:166 | adding an entry that does not end in ".json" leaves the listing unchanged |
| `Snapshots.ListFilesSingle` | server.ts:164-170 | a directory with one ".json" file lists exactly that file's id |
| `Snapshots.SavedJsonNamedSnapshotNotFetchable` | server.ts:237 | as written, POST of the name "a.json" answers `a-<ts>.json`, and a GET of that id does not find the stored `a.json-<ts>.json` |
| `Snapshots.ListedJsonNamedEntryNotFetchable` | server.ts:167 | as written, the file stored for "a.json" is listed under `a-<ts>.json`, whose lookup file `a-<ts>.json.json` is not in the directory |
| `Snapshots.StripExtension` | server.ts:167 | removing the extension is undone by the lookup: `<id>.json` is the original file name |
| `Snapshots.SaveSnapshotIntended` | server.ts:217 | with the extension removed, the answered id is `<name>-<timestamp>` for every name, and `<id>.json` is the stored file |
| `Snapshots.ListFilesIntended` | server.ts:164-170 | with the extension removed, the listing is non-increasing, and every listed id's `<id>.json` is a ".json" entry of the directory |
| `Snapshots.IntendedSnapshotIsFetchable` | server.ts:249 | with the extension removed, a GET of the answered id returns the stored content, for every name |
| `PublishLog.ClientLabel` | server.ts:117 | never empty; it is the client id when that is present and non-empty, and it is "broker" iff the client is absent, the id is empty, or the id is "broker" |
| `PublishLog.PublishLogLine` | server.ts:113-123 | a line is produced iff the topic does not start with "$SYS"; the line starts with the ISO time and ends with a newline |
| `PublishLog.LogLineRoundTrip` | server.ts:119 | when the time, client label and topic hold no space, splitting the line at its spaces gives back the time, client label, topic and payload |
| `PublishLog.OneLinePerPublish` | server.ts:119 | when no field holds a newline, each logged publish is exactly one line of the log |
| `PublishLog.SysTopicsSuppressed` | server.ts:115 | "$SYS/broker/uptime" and "$SYSTEM" are not logged; "$sys/x" and "test/$SYS" are logged |

## Findings

| source | as written | input that shows it | evidently intended | confidence | as-written member | corrected member |
|---|---|---|---|---|---|---|
| server.ts:237 | the POST response id is `filename.replace(".json", "")`, which removes the first ".json" anywhere in the file name | POST `/api/data/a.json` stores `a.json-<ts>.json` and answers `a-<ts>.json`; GET `/api/data/a-<ts>.json` then looks for `a-<ts>.json.json` and answers 404 | remove only the ".json" extension, so that GET and DELETE of the answered id reach the stored file | not executed; medium, because names that contain ".json" are unusual | `Snapshots.SavedJsonNamedSnapshotNotFetchable` | `Snapshots.SaveSnapshotIntended` |
| server.ts:167 | the listing strips each entry with `f.replace(".json", "")`, the first occurrence | a directory holding `a.json-<ts>.json` lists `a-<ts>.json`, and GET of that id does not find the file | list each file under its name without the extension | not executed; medium, as above | `Snapshots.ListedJsonNamedEntryNotFetchable` | `Snapshots.ListFilesIntended` |

The as-written members (`SaveSnapshot`, `ListFiles`) remain the model of the
handlers. The corrected ones sit beside them, with the round trip proved
for every name (`Snapshots.IntendedSnapshotIsFetchable`).

## Left out

- Broker engine: topic and wildcard matching, fan-out, QoS 1 retry, retained messages, keep-alive and will messages all live in the Aedes library (server.ts:1, 11-14, 84). None of that code is in the repository.
- The Aedes tuning constants (heartbeat 60 s, connect timeout 30 s, socket timeout 120 s) are passed to the library or the socket and have no behaviour in the repository's code.
- `preConnect`, `authorizePublish` and `authorizeSubscribe` (server.ts:17-36) only log and always allow, so they are not modelled.
- TCP server and socket event handlers (server.ts:66-85, 153-155) are network I/O and are not modelled.
- The HTTP routing itself is not modelled. Nor are the reading of the request body and content type, the JSON serialisation of what is saved, or the error path that answers 500. These are I/O; only the naming and the lookup decisions are modelled.
- GET and DELETE are modelled over a map from file name to content that stands for the data directory. File-system failures are not modelled.
- The clock is an input: `iso` stands for `new Date().toISOString()`. The handlers read the clock again for their console lines; those reads are not modelled.
- The other log lines (CONNECT, DISCONNECT, SUBSCRIBE, ERROR, CONN_ERROR, PING, ACK; server.ts:90-149) are not modelled. The log writer, flushing and console output are I/O and are not modelled either.
- Authentication.Authenticate: the password buffer is taken as already converted to text. `Buffer.toString()` decodes UTF-8 and replaces invalid bytes, so two different byte strings can compare equal; that decoding is not modelled.
- PublishLog.PublishLogLine: the payload buffer is likewise taken as already converted to text.
- Authentication.Lookup: the user table is a finite map in which a missing name has no entry. JavaScript lookups of inherited keys such as "constructor" are not modelled.
- Strings.LexLe: orders strings by Dafny character, that is by Unicode code point. JavaScript's default `sort()` compares UTF-16 code units, and the two agree except between characters outside the Basic Multilingual Plane and characters U+E000-U+FFFF.
- PublishLog.LogLineRoundTrip: holds only when the time, client label and topic contain no space. MQTT allows spaces in client ids and topics, and then the log line is ambiguous.
- deploy.ts (shell commands for deployment) and test-client.ts (a network client script) are not part of this model.
