# HuskSync legacy-data migrators, in Dafny

This project models the part of HuskSync that imports player data from older
plugins into the HuskSync v2 database. It also proves properties of that model.

- **LegacyMigrator** moves HuskSync v1.x data.
- **MpdbMigrator** moves MySQLPlayerDataBridge data.

Each migrator holds a record of source-database parameters. It lets an
administrator change them one at a time with `husksync migrate <id> set <name>
<value>` and shows them in a help menu. On `start` it:

1. wipes the target database;
2. downloads every row of the source tables;
3. converts each row into a `UserData` snapshot;
4. stores each snapshot after making sure its user exists.

Beside the migrators, the project models two small types:

- `BukkitPersistentTypeMapping`, the registry that pairs HuskSync's
  persistent-data tag kinds with Bukkit's `PersistentDataType`s;
- `User`, whose equality is by UUID.

## How the model is organised

| file | module | what it holds |
|---|---|---|
| wrappers.dfy | `Wrappers` | `Option` for Java nulls, `Result` for thrown exceptions |
| text.dfy | `Text` | `toLowerCase`, literal `replaceAll`, and templates with `%name%` placeholders |
| help_text.dfy | `HelpText` | the paragraphs both help menus share, and rendering by a `replaceAll` chain |
| java_int.dfy | `JavaInt` | 32-bit `int`, `Integer.parseInt` and `Integer.toString` |
| java_float.dfy | `JavaFloat` | IEEE 754 `float` and `double` values, and widening of `int` to them |
| users.dfy | `Users` | `User` and its `equals` |
| snapshot.dfy | `Snapshot` | the `UserData` record and its builder |
| statistics.dfy | `StatisticConversion` | the legacy statistic-map converters |
| migration.dfy | `Migration` | the event trace of a run, shared by both migrators |
| legacy_migrator.dfy | `LegacyMigrator` | parameters, `set` command, help menu, row conversion, `start` |
| mpdb_migrator.dfy | `MpdbMigrator` | the same for MySQLPlayerDataBridge |
| type_mapping.dfy | `PersistentTypeMapping` | the tag-kind registry and its container accessors |

### How `start()` is modelled

A run is a sequence of events: `WipeDatabase`, `EnsureUser`, `SetUserData`
(with its provenance tag) and `LogFailure`. It ends in an outcome:
`Resolved(true)`, `Resolved(false)` or `CompletedExceptionally`.

The target database is a parameter saying which calls succeed. The download
is a `Result` holding the rows. The converters and the fresh world UUIDs are
parameters too.

The wipe is outside the `try`, which is easy to miss: a failed wipe
completes the future exceptionally, while a failed download resolves
`false`.

The downloaded rows reach `start()` as records that have already been
read, so in a run `expProgress` may be any `float`. How one MPDB row is
read from its columns is modelled on its own, by `MpdbMigrator.ReadRow`:
the `exp` column is read with `getInt` and passed where the record expects
a `float`, so `expProgress` is the widened integer, rounded beyond 2^24.

### Behaviour worth knowing

- **A failed conversion aborts the run** (LegacyMigrator.java:118-136 and
  350-352, MpdbMigrator.java:115-132). `toUserData` rethrows the decoder's
  `IOException`, and the `join()` inside the `forEach` carries it into the
  outer `catch`. No later row is touched and the run resolves `false`.
- **A failed `ensureUser` is handled differently by the two migrators.**
  - LegacyMigrator (LegacyMigrator.java:119-124) attaches `exceptionally` to
    `setUserData`. A failed save is logged and the run continues. A failed
    `ensureUser` reaches the outer `catch` and the run resolves `false`.
  - MpdbMigrator (MpdbMigrator.java:116-121) attaches it after
    `ensureUser(..).thenRun(..)`. A failed `ensureUser` is logged and the
    run continues. The future of `setUserData` is never joined, so its
    outcome is not observed.
- **The help menus obfuscate the host** as well as the username and the
  password (LegacyMigrator.java:245-248, MpdbMigrator.java:243-246).
- **Any argument count other than two reprints the help**
  (LegacyMigrator.java:142 and 190-192), three or more included.
- **Printing the help menu can throw.** The menu is built by
  `replaceAll(Pattern.quote(..), value)` (LegacyMigrator.java:245-251,
  MpdbMigrator.java:243-250), and `replaceAll` reads `$` and `\` in the
  value as a group reference and an escape. A value such as `my$db` or one
  ending in `\` makes it throw. After a `set`, the menu is printed only once
  the parameter holds the new value (LegacyMigrator.java:182-184), so the
  value stays set and the confirmation is never printed.

## Model

| member | source | states |
|---|---|---|
| `Users.Equals` | common/src/main/java/net/william278/husksync/player/User.java:28-34 | a user equals another object exactly when the object is a user with the same UUID; a non-user is never equal, since identity cannot be shared with a user |
| `Users.EqualsIgnoresUsername` | common/src/main/java/net/william278/husksync/player/User.java:29-31 | two users with the same UUID are equal whatever their usernames |
| `Users.SameUserIsEquivalence` | common/src/main/java/net/william278/husksync/player/User.java:28-31 | user equality is reflexive, symmetric and transitive |
| `JavaInt.ParseFormatRoundTrip` | bukkit/src/main/java/net/william278/husksync/migrator/LegacyMigrator.java:149-156 | `Integer.parseInt` reads back every `int` that `Integer.toString` writes, so a port shown in the help menu can be typed back with `set port` |
| `JavaInt.ShortDigitStringsParse` | bukkit/src/main/java/net/william278/husksync/migrator/LegacyMigrator.java:149-156 | a string of one to nine ASCII digits parses to its decimal value |
| `JavaFloat.IntToFloatExact` | bukkit/src/main/java/net/william278/husksync/migrator/MpdbMigrator.java:100 | widening an `int` of magnitude at most 2^24 to `float` keeps its value |
| `JavaFloat.IntToFloatRounds` | bukkit/src/main/java/net/william278/husksync/migrator/MpdbMigrator.java:100 | beyond 2^24 the widening rounds: 2^24+1 becomes the same `float` as 2^24 |
| `JavaFloat.IntToDoubleExact` | bukkit/src/main/java/net/william278/husksync/migrator/LegacyMigrator.java:334-336 | widening any `int` to `double` keeps its value, so the literals `0d`, `64d` and `0d`, written in the model as widened integers, are exactly 0, 64 and 0 |
| `Text.ReplaceAllFillsPlaceholder` | bukkit/src/main/java/net/william278/husksync/migrator/LegacyMigrator.java:245 | a literal `replaceAll` of `%name%` on a template with no stray `%` fills exactly that placeholder's holes with the value and leaves the rest of the text as it was |
| `Text.ReplaceEachInstantiates` | bukkit/src/main/java/net/william278/husksync/migrator/LegacyMigrator.java:245-251 | a chain of such `replaceAll`s, with values free of `%`, fills every placeholder with the value of its first substitution |
| `HelpText.RenderShowsSetting` | bukkit/src/main/java/net/william278/husksync/migrator/LegacyMigrator.java:227-233 | a `- name: %placeholder%` line of a rendered menu shows its caption, the substituted value and the line end together |
| `Text.LiteralExpandsToItself` | bukkit/src/main/java/net/william278/husksync/migrator/LegacyMigrator.java:245-251 | `replaceAll` inserts a replacement without `$` and `\` as it stands |
| `Text.ThrowingReplacements` | bukkit/src/main/java/net/william278/husksync/migrator/LegacyMigrator.java:245-251 | `my$db`, a value ending in `\` and `$1` make `replaceAll` throw |
| `Text.EscapedDollar` | bukkit/src/main/java/net/william278/husksync/migrator/LegacyMigrator.java:245-251 | `a\$b` is inserted as `a$b` |
| `Text.GroupZero` | bukkit/src/main/java/net/william278/husksync/migrator/LegacyMigrator.java:245-251 | `$0` followed by any number of further zeros inserts the matched placeholder, and reading goes on after the zeros |
| `Text.JavaReplaceAll` | bukkit/src/main/java/net/william278/husksync/migrator/LegacyMigrator.java:245 | `replaceAll` throws exactly when the placeholder occurs and its replacement cannot be read, with the exception reading throws; otherwise every occurrence is replaced by what the replacement reads as (the replacement itself when it is literal), and a string without the placeholder comes back unchanged |
| `Text.JavaReplaceEach` | bukkit/src/main/java/net/william278/husksync/migrator/LegacyMigrator.java:245-251 | a chain of `replaceAll`s whose values can all be read is the literal chain of what they read as; with literal values, the literal chain of the values |
| `HelpText.JavaRender` | bukkit/src/main/java/net/william278/husksync/migrator/LegacyMigrator.java:245-251 | rendering with readable values does not throw and fills the template with what the values read as; literal values are filled in as they stand |
| `HelpText.JavaRenderThrows` | bukkit/src/main/java/net/william278/husksync/migrator/LegacyMigrator.java:245-251 | rendering throws when a setting's value cannot be read and the values before it were literal |
| `HelpText.JavaRenderShowsSetting` | bukkit/src/main/java/net/william278/husksync/migrator/LegacyMigrator.java:227-251 | with readable values free of `%` after reading, a setting line shows its caption, what its value reads as, and the line end together |
| `Text.NamedGroupMissing` | bukkit/src/main/java/net/william278/husksync/migrator/LegacyMigrator.java:245-251 | a well-formed `${name}` throws "No group with name {name}", since a quoted pattern has no named groups |
| `Text.EmptyGroupName` | bukkit/src/main/java/net/william278/husksync/migrator/LegacyMigrator.java:245-251 | `${` with no name throws "named capturing group has 0 length name" |
| `Text.UnclosedGroupName` | bukkit/src/main/java/net/william278/husksync/migrator/LegacyMigrator.java:245-251 | a `${name` the replacement ends in throws "named capturing group is missing trailing '}'" |
| `Text.DigitGroupName` | bukkit/src/main/java/net/william278/husksync/migrator/LegacyMigrator.java:245-251 | `${1}` throws "capturing group name {1} starts with digit character" |
| `LegacyMigrator.InitialParams` | bukkit/src/main/java/net/william278/husksync/migrator/LegacyMigrator.java:38-49 | a new migrator takes host, port, username, password and database from the plugin's settings, and the tables `husksync_players` and `husksync_data` |
| `LegacyMigrator.SetParameter` | bukkit/src/main/java/net/william278/husksync/migrator/LegacyMigrator.java:143-181 | a `set` succeeds exactly when the name, lower-cased, is one of the seven parameters and, for the port, the value parses; the named parameter becomes the value and no other changes |
| `LegacyMigrator.HandleCommand` | bukkit/src/main/java/net/william278/husksync/migrator/LegacyMigrator.java:141-193 | with two arguments the outcome is never the bare help; a rejected name or port reports failure and changes nothing; an accepted one sets the parameter, which keeps its value even if the help menu then throws; with any other count only the help is printed; the help is reported exactly when `getHelpMenu` does not throw, and a menu of literal values never throws |
| `LegacyMigrator.HandleCommandIgnoresCase` | bukkit/src/main/java/net/william278/husksync/migrator/LegacyMigrator.java:144 | two names equal after lower-casing have the same effect |
| `LegacyMigrator.SetPortExamples` | bukkit/src/main/java/net/william278/husksync/migrator/LegacyMigrator.java:149-156 | `set Port 3307` sets the port to 3307 and succeeds when the other values print literally; `set port 33o7` fails and changes nothing |
| `LegacyMigrator.HelpMenu` | bukkit/src/main/java/net/william278/husksync/migrator/LegacyMigrator.java:209-251 | when every shown value is free of `$` and `\`, `getHelpMenu` does not throw and its text is the template filled by the literal `replaceAll` chain; when every shown value can be read as a replacement, the template is filled with what the values read as |
| `LegacyMigrator.HelpMenuThrows` | bukkit/src/main/java/net/william278/husksync/migrator/LegacyMigrator.java:245-251 | a shown value `replaceAll` cannot read makes `getHelpMenu` throw, provided the values before it were literal |
| `LegacyMigrator.HelpMenuShowsParameter` | bukkit/src/main/java/net/william278/husksync/migrator/LegacyMigrator.java:227-251 | every parameter appears on its own line of the help menu: the port in decimal, database and tables verbatim, host, username and password only through `obfuscateDataString` |
| `LegacyMigrator.SetThenHelpShowsValue` | bukkit/src/main/java/net/william278/husksync/migrator/LegacyMigrator.java:141-251 | an accepted `set` whose new values contain no `$`, `\` or `%` reports success, and the help menu it prints shows the new value (obfuscated for host, username and password) |
| `LegacyMigrator.SetDollarValueThrows` | bukkit/src/main/java/net/william278/husksync/migrator/LegacyMigrator.java:182-184 | `set database my$db` stores the value, then printing the help menu throws |
| `LegacyMigrator.ConvertLocation` | bukkit/src/main/java/net/william278/husksync/migrator/LegacyMigrator.java:328-338 | a decoded location keeps its world name, x, y, z, yaw and pitch; no decoded location gives world "world" at 0, 64, 0 with yaw 90 and pitch 180; the environment is always "NORMAL" and the world id always fresh |
| `LegacyMigrator.ConvertAdvancements` | bukkit/src/main/java/net/william278/husksync/migrator/LegacyMigrator.java:324-326 | advancements keep their count, order, keys and criteria maps |
| `LegacyMigrator.ToUserData` | bukkit/src/main/java/net/william278/husksync/migrator/LegacyMigrator.java:312-354 | the conversion succeeds exactly when all three decoders succeed, and otherwise fails with the first decoder's error; a snapshot carries the row's twelve status values, its inventory, ender-chest and potion blobs, and the converted advancements, statistics and location |
| `LegacyMigrator.ConvertStatisticsByLoops` | bukkit/src/main/java/net/william278/husksync/migrator/LegacyMigrator.java:316-322 | the four statistic maps the loops build are the re-keyed maps; block and item statistics both go through the material converter |
| `StatisticConversion.ConvertStatisticMap` | bukkit/src/main/java/net/william278/husksync/migrator/LegacyMigrator.java:356-362 | the loop puts every raw count under its statistic's name and nothing else |
| `StatisticConversion.ConvertNestedStatisticMap` | bukkit/src/main/java/net/william278/husksync/migrator/LegacyMigrator.java:364-384 | the nested loops put every count under the names of its statistic and material (or entity type) |
| `StatisticConversion.RenamedValues` | bukkit/src/main/java/net/william278/husksync/migrator/LegacyMigrator.java:356-362 | a name appears in the converted map exactly when a statistic of that name was in the raw map, with its count unchanged |
| `StatisticConversion.NestedRenamedValues` | bukkit/src/main/java/net/william278/husksync/migrator/LegacyMigrator.java:364-384 | a statistic appears in the converted nested map exactly when its raw inner map is non-empty, because `computeIfAbsent` runs only inside the inner loop |
| `LegacyMigrator.Batch` | bukkit/src/main/java/net/william278/husksync/migrator/LegacyMigrator.java:118-136 | the loop never wipes, saves at most one snapshot per row, and exactly one per row when it reports success |
| `LegacyMigrator.BatchEnsuresBeforeSaving` | bukkit/src/main/java/net/william278/husksync/migrator/LegacyMigrator.java:118-124 | every save is immediately preceded by `ensureUser` of the same user and is tagged `LEGACY_MIGRATION` |
| `LegacyMigrator.BatchSucceedsIff` | bukkit/src/main/java/net/william278/husksync/migrator/LegacyMigrator.java:118-136 | the batch reports success exactly when every row converts and every user is ensured; a failed save does not count against it |
| `LegacyMigrator.BatchSavesEveryRow` | bukkit/src/main/java/net/william278/husksync/migrator/LegacyMigrator.java:118-130 | when every row converts and is ensured, the batch saves each row's snapshot under its user, in download order |
| `LegacyMigrator.Start` | bukkit/src/main/java/net/william278/husksync/migrator/LegacyMigrator.java:52-138 | the run begins with the wipe; it completes exceptionally exactly when the wipe fails; after a failed wipe or download nothing else happens and the run does not report success |
| `LegacyMigrator.StartEnsuresBeforeSaving` | bukkit/src/main/java/net/william278/husksync/migrator/LegacyMigrator.java:58-124 | a run wipes exactly once, before anything else, and ensures each user right before saving its snapshot |
| `LegacyMigrator.StartSucceedsIff` | bukkit/src/main/java/net/william278/husksync/migrator/LegacyMigrator.java:52-138 | a run resolves `true` exactly when the wipe and the download succeed, every row converts and every user is ensured |
| `LegacyMigrator.SuccessfulRunWritesEveryRow` | bukkit/src/main/java/net/william278/husksync/migrator/LegacyMigrator.java:118-132 | such a run resolves `true` and writes each row's converted snapshot under its user, in download order |
| `LegacyMigrator.BatchStopsAtFailedConversion` | bukkit/src/main/java/net/william278/husksync/migrator/LegacyMigrator.java:118-136 | after a row whose conversion fails, no later row is touched and the batch reports failure |
| `LegacyMigrator.StartStopsAtFailedConversion` | bukkit/src/main/java/net/william278/husksync/migrator/LegacyMigrator.java:350-352 | a run whose row `k` fails to convert does what the run over the rows before `k` does, and then resolves `false` |
| `MpdbMigrator.InitialParams` | bukkit/src/main/java/net/william278/husksync/migrator/MpdbMigrator.java:43-56 | a new migrator takes host, port, username, password and database from the plugin's settings, and the tables `mpdb_inventory`, `mpdb_enderchest` and `mpdb_experience` |
| `MpdbMigrator.SetParameter` | bukkit/src/main/java/net/william278/husksync/migrator/MpdbMigrator.java:139-181 | a `set` succeeds exactly when the name, lower-cased, is one of host, port, username, password, database, inventory_table, ender_chest_table and experience_table and, for the port, the value parses; the named parameter becomes the value and no other changes |
| `MpdbMigrator.HandleCommand` | bukkit/src/main/java/net/william278/husksync/migrator/MpdbMigrator.java:137-193 | with two arguments the outcome is never the bare help; a rejected name or port reports failure and changes nothing; an accepted one sets the parameter, which keeps its value even if the help menu then throws; with any other count only the help is printed; the help is reported exactly when `getHelpMenu` does not throw, and a menu of literal values never throws |
| `MpdbMigrator.RejectedCommandExamples` | bukkit/src/main/java/net/william278/husksync/migrator/MpdbMigrator.java:140-180 | `players_table`, a legacy parameter, is unknown here and `set port 33o7` fails; neither changes anything |
| `MpdbMigrator.HelpMenu` | bukkit/src/main/java/net/william278/husksync/migrator/MpdbMigrator.java:209-250 | when every shown value is free of `$` and `\`, `getHelpMenu` does not throw and its text is the template filled by the literal `replaceAll` chain; when every shown value can be read as a replacement, the template is filled with what the values read as |
| `MpdbMigrator.HelpMenuThrows` | bukkit/src/main/java/net/william278/husksync/migrator/MpdbMigrator.java:243-250 | a shown value `replaceAll` cannot read makes `getHelpMenu` throw, provided the values before it were literal |
| `MpdbMigrator.HelpMenuShowsParameter` | bukkit/src/main/java/net/william278/husksync/migrator/MpdbMigrator.java:210-250 | every parameter appears on its own line of the help menu: the port in decimal, database and the three tables verbatim, host, username and password only through `obfuscateDataString` |
| `MpdbMigrator.SetThenHelpShowsValue` | bukkit/src/main/java/net/william278/husksync/migrator/MpdbMigrator.java:137-250 | an accepted `set` whose new values contain no `$`, `\` or `%` reports success, and the help menu it prints shows the new value (obfuscated for host, username and password) |
| `MpdbMigrator.SetDollarValueThrows` | bukkit/src/main/java/net/william278/husksync/migrator/MpdbMigrator.java:182-184 | `set database my$db` stores the value, then printing the help menu throws |
| `MpdbMigrator.ReadRow` | bukkit/src/main/java/net/william278/husksync/migrator/MpdbMigrator.java:93-101 | a downloaded row keeps its user, blobs, level and total experience; `expProgress` is the `exp` integer widened to `float`, exact up to 2^24 |
| `MpdbMigrator.SetContents` | bukkit/src/main/java/net/william278/husksync/migrator/MpdbMigrator.java:301-302 | a fresh player inventory takes up to 41 stacks from the first slot on, the rest empty; more stacks are rejected |
| `MpdbMigrator.SetItem` | bukkit/src/main/java/net/william278/husksync/migrator/MpdbMigrator.java:305 | one slot is replaced and no other; an index past the last slot is rejected |
| `MpdbMigrator.WithArmor` | bukkit/src/main/java/net/william278/husksync/migrator/MpdbMigrator.java:303-306 | armour piece `k` lands in slot 36+k, every other slot keeps what `setContents` put there, and the merge succeeds exactly when 36 plus the armour count is at most 41 |
| `MpdbMigrator.PlaceArmor` | bukkit/src/main/java/net/william278/husksync/migrator/MpdbMigrator.java:304-306 | the armour loop, one `setItem` per piece, computes that merge or fails at the first slot past the inventory |
| `MpdbMigrator.MpdbStatus` | bukkit/src/main/java/net/william278/husksync/migrator/MpdbMigrator.java:310-312 | health 20 of 20, health scale 0, hunger 20, saturation 10, exhaustion 1, slot 0, "SURVIVAL", not flying; level, progress and total experience come from the row |
| `MpdbMigrator.ToUserData` | bukkit/src/main/java/net/william278/husksync/migrator/MpdbMigrator.java:297-318 | the conversion succeeds exactly when each decode, the inventory merge and both serializations succeed, and otherwise fails with the error of the first step that fails, in source order; the snapshot sets only the status, the serialized merged inventory and the serialized ender chest |
| `MpdbMigrator.OversizedInventoryFails` | bukkit/src/main/java/net/william278/husksync/migrator/MpdbMigrator.java:301-306 | more than 41 inventory stacks or more than five armour pieces make the conversion fail |
| `MpdbMigrator.Step` | bukkit/src/main/java/net/william278/husksync/migrator/MpdbMigrator.java:116-121 | a converted row issues `ensureUser`, then the save tagged `MPDB_MIGRATION` when `ensureUser` succeeds or a log entry when it fails |
| `MpdbMigrator.Batch` | bukkit/src/main/java/net/william278/husksync/migrator/MpdbMigrator.java:115-132 | the loop never wipes and issues two events per converted row, all rows' worth when it reports success |
| `MpdbMigrator.BatchEnsuresBeforeSaving` | bukkit/src/main/java/net/william278/husksync/migrator/MpdbMigrator.java:115-121 | every save is immediately preceded by `ensureUser` of the same user and is tagged `MPDB_MIGRATION` |
| `MpdbMigrator.BatchSucceedsIff` | bukkit/src/main/java/net/william278/husksync/migrator/MpdbMigrator.java:115-132 | the batch reports success exactly when every row converts; a failed `ensureUser` is only logged |
| `MpdbMigrator.BatchHandlesEveryRow` | bukkit/src/main/java/net/william278/husksync/migrator/MpdbMigrator.java:115-126 | when every row converts, row `i` yields events `2i` and `2i+1`: `ensureUser`, then the save or the log entry |
| `MpdbMigrator.Start` | bukkit/src/main/java/net/william278/husksync/migrator/MpdbMigrator.java:59-134 | the run begins with the wipe; it completes exceptionally exactly when the wipe fails; after a failed wipe or download nothing else happens and the run does not report success |
| `MpdbMigrator.StartEnsuresBeforeSaving` | bukkit/src/main/java/net/william278/husksync/migrator/MpdbMigrator.java:65-121 | a run wipes exactly once, before anything else, and ensures each user right before saving its snapshot |
| `MpdbMigrator.StartSucceedsIff` | bukkit/src/main/java/net/william278/husksync/migrator/MpdbMigrator.java:59-134 | a run resolves `true` exactly when the wipe and the download succeed and every row converts |
| `MpdbMigrator.SuccessfulRunHandlesEveryRow` | bukkit/src/main/java/net/william278/husksync/migrator/MpdbMigrator.java:115-128 | such a run is the wipe followed, row by row in download order, by `ensureUser` and the save of the converted snapshot or a log entry, and resolves `true` |
| `MpdbMigrator.BatchStopsAtFailedConversion` | bukkit/src/main/java/net/william278/husksync/migrator/MpdbMigrator.java:115-132 | after a row whose conversion fails, no later row is touched and the batch reports failure |
| `MpdbMigrator.StartStopsAtFailedConversion` | bukkit/src/main/java/net/william278/husksync/migrator/MpdbMigrator.java:115-132 | a run whose row `k` fails to convert does what the run over the rows before `k` does, and then resolves `false` |
| `PersistentTypeMapping.TableIsComplete` | bukkit/src/main/java/net/william278/husksync/data/BukkitPersistentTypeMapping.java:14-27 | the table has twelve entries with pairwise distinct tag kinds, each paired with the Bukkit type of the same name |
| `PersistentTypeMapping.FindMapping` | bukkit/src/main/java/net/william278/husksync/data/BukkitPersistentTypeMapping.java:47-54 | the lookup returns an entry of the requested kind, the first one in table order, and returns nothing exactly when no entry has that kind |
| `PersistentTypeMapping.FindMappingByLoop` | bukkit/src/main/java/net/william278/husksync/data/BukkitPersistentTypeMapping.java:47-54 | the loop with its early return computes that lookup |
| `PersistentTypeMapping.FindMappingInDistinctTable` | bukkit/src/main/java/net/william278/husksync/data/BukkitPersistentTypeMapping.java:47-54 | in a table without repeated kinds, the lookup of an entry's kind returns that entry |
| `PersistentTypeMapping.GetMapping` | bukkit/src/main/java/net/william278/husksync/data/BukkitPersistentTypeMapping.java:47-54 | `getMapping` finds every one of the twelve kinds and returns its entry, which pairs it with the Bukkit type of the same name |
| `PersistentTypeMapping.GetContainerValue` | bukkit/src/main/java/net/william278/husksync/data/BukkitPersistentTypeMapping.java:38-40 | reading succeeds exactly when the key holds a value of the entry's Bukkit type, giving a tag with the entry's kind and that value; an absent key fails the null check |
| `PersistentTypeMapping.SetContainerValue` | bukkit/src/main/java/net/william278/husksync/data/BukkitPersistentTypeMapping.java:42-45 | when the snapshot has no value under the key's string form the container is unchanged; otherwise the value is stored under the key with the entry's Bukkit type and no other key changes |
| `PersistentTypeMapping.SetThenGet` | bukkit/src/main/java/net/william278/husksync/data/BukkitPersistentTypeMapping.java:38-45 | a value copied in reads back through the same entry as a tag of the entry's kind |
| `PersistentTypeMapping.SetLeavesOtherKeys` | bukkit/src/main/java/net/william278/husksync/data/BukkitPersistentTypeMapping.java:38-45 | copying one key leaves what every other key reads unchanged |
| `PersistentTypeMapping.GetThenSetRestores` | bukkit/src/main/java/net/william278/husksync/data/BukkitPersistentTypeMapping.java:38-54 | for every kind, reading a value out and copying it back through `getMapping`'s entry restores it |
| `PersistentTypeMapping.ToStringInjective` | bukkit/src/main/java/net/william278/husksync/data/BukkitPersistentTypeMapping.java:43 | for Bukkit's colon-free namespaces, the key's string form determines the key |

## Left out

- JDBC and Hikari: connection setup, the SQL queries, the JDBC URL and `ResultSet` reading are I/O. The downloaded rows are an input (`Result<seq<…>>`, a failure standing for any exception of the download).
- `CompletableFuture` scheduling and thread pools: a run is flattened into one sequential event trace. In LegacyMigrator a failed `setUserData` future is logged through its `exceptionally` (LegacyMigrator.java:120-124), and the trace places that log entry right after the save, whenever it would happen. MpdbMigrator drops the `setUserData` future inside `thenRun` (MpdbMigrator.java:116-118), so a failed MPDB save is never logged and its outcome is not part of the trace.
- Log messages, the progress counters (every 25 and 50 rows) and elapsed-time measurement. Only the per-user failure log is an event (`LogFailure`).
- The "successfully set" confirmation and the rejection message printed by `handleConfigurationCommand`: `CommandOutcome` records which of them is shown, or the exception the help menu threw, not the message text.
- `HSLConverter`, `MPDBConverter` and `BukkitSerializer.serializeItemStackArray` are foreign code, modelled as parameters that may fail.
- `obfuscateDataString` is defined in a base class that is not part of this model. It is a parameter.
- `UUID.randomUUID` is a parameter: row `i` gets `freshWorldIds(i)`.
- `LegacyMigrator.HelpMenuShowsParameter`, `MpdbMigrator.HelpMenuShowsParameter`, `LegacyMigrator.HelpMenuThrows`, `MpdbMigrator.HelpMenuThrows`: the fill and throw theorems require shown values without `%`, which a later replacement could take for part of a placeholder. The throw theorems also require the values before the unreadable one to be literal. The model itself renders every value, as Java does.
- `JavaInt.ParseInt` accepts an optional sign followed by ASCII digits only. `Integer.parseInt` also accepts the decimal digits of other Unicode scripts.
- `MpdbMigrator.Start` takes the downloaded rows as already-read records, so it does not promise that a run's `expProgress` is a widened integer. `MpdbMigrator.ReadRow` states that for one row on its own.
- `Text.Lower` folds ASCII letters only. `String.toLowerCase` uses the default locale and all of Unicode. Outside the Turkish and Azerbaijani locales the outcome of a `set` is the same: no other upper-case letter lowers to an ASCII letter used in a parameter name (the Kelvin sign lowers to `k`, which none contains).
- `MpdbMigrator.HandleCommand`: under a Turkish or Azerbaijani default locale `I` lowers to a dotless `ı`, so Java rejects `INVENTORY_TABLE` and `EXPERIENCE_TABLE`, which the model accepts; and `İ` lowers to `i`, so Java accepts `İNVENTORY_TABLE`, which the model rejects. The legacy parameter names contain no `i`, so `LegacyMigrator.HandleCommand` agrees with Java under every locale.
- `MpdbMigrator.SetItem`: the failure past the last slot carries a fixed stand-in message, not the JDK's index-exception text, which names the index and the length.
- Bukkit's `Inventory` is modelled as 41 slots, the size of a player inventory. `setContents` rejects more than 41 items and `setItem` rejects an index past the last slot. Nothing else of Bukkit is modelled.
- `PersistentTypeMapping.GetContainerValue`: a value stored under a different Bukkit type makes the read fail (Bukkit throws `IllegalArgumentException`). The primitive-to-complex conversion of `PersistentDataType` is the identity for all twelve types, so it is not modelled.
- `PersistentTypeMapping.SetContainerValue`: `PersistentDataContainerData.getTagValue` is a parameter. Its class cast is not modelled.
- `UserData.builder`, `StatusData`, `ItemData` and the other snapshot records are plain records. Their serialization is not modelled.
- Floating point: values are copied, never computed. Only the widening of an `int` constant to `float` or `double` is modelled.
- `equals`, `hashCode` and `toString` of `LegacyData`, `MpdbData` and the registry are not modelled, and neither is `User`'s missing `hashCode`. Dafny's structural equality of `Mapping` is the registry's `equals`.
- The help text is stored as short chunks joined at render time. This keeps each literal small; the joined text is the source's.
