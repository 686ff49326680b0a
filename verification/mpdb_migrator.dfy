/** The migrator from MySQLPlayerDataBridge (MPDB) data: its connection
    parameters and the `set` command that edits them, the help menu, the
    conversion of one MPDB row (inventory, armour, ender chest, experience)
    into a snapshot, and the batch run. */
module MpdbMigrator {
  import opened Wrappers
  import opened Text
  import opened HelpText
  import opened JavaInt
  import opened JavaFloat
  import opened Users
  import opened Snapshot
  import opened Migration

  // ---------------------------------------------------------------------
  // Parameters and the `set` command
  // ---------------------------------------------------------------------

  /** Where the MPDB data lives. */
  datatype Params = Params(
    host: string,
    port: Int32,
    username: string,
    password: string,
    database: string,
    inventoryTable: string,
    enderChestTable: string,
    experienceTable: string)

  /** The plugin's own database settings, which the parameters start from. */
  datatype DatabaseSettings = DatabaseSettings(
    mySqlHost: string,
    mySqlPort: Int32,
    mySqlUsername: string,
    mySqlPassword: string,
    mySqlDatabase: string)

  /** The constructor: connection details from the plugin settings, the
      tables of MPDB by their default names. */
  function InitialParams(settings: DatabaseSettings): (p: Params)
    ensures p.host == settings.mySqlHost && p.port == settings.mySqlPort
    ensures p.username == settings.mySqlUsername && p.password == settings.mySqlPassword
    ensures p.database == settings.mySqlDatabase
    ensures p.inventoryTable == "mpdb_inventory" && p.enderChestTable == "mpdb_enderchest"
    ensures p.experienceTable == "mpdb_experience"
  {
    Params(settings.mySqlHost, settings.mySqlPort, settings.mySqlUsername, settings.mySqlPassword,
           settings.mySqlDatabase, "mpdb_inventory", "mpdb_enderchest", "mpdb_experience")
  }

  /** The parameters a `set` command can name. */
  datatype Field = Host | Port | Username | Password | Database | InventoryTable | EnderChestTable | ExperienceTable

  /** The name a command uses for each parameter. */
  function FieldName(f: Field): string {
    match f
    case Host => "host"
    case Port => "port"
    case Username => "username"
    case Password => "password"
    case Database => "database"
    case InventoryTable => "inventory_table"
    case EnderChestTable => "ender_chest_table"
    case ExperienceTable => "experience_table"
  }

  /** The parameter a (lower-cased) command name selects, if any. */
  function FieldNamed(name: string): (f: Option<Field>)
    ensures f.Some? ==> FieldName(f.value) == name
  {
    if name == "host" then Some(Host)
    else if name == "port" then Some(Port)
    else if name == "username" then Some(Username)
    else if name == "password" then Some(Password)
    else if name == "database" then Some(Database)
    else if name == "inventory_table" then Some(InventoryTable)
    else if name == "ender_chest_table" then Some(EnderChestTable)
    else if name == "experience_table" then Some(ExperienceTable)
    else None
  }

  /** Every parameter is selected by its own name. */
  lemma FieldNamedInverts(f: Field)
    ensures FieldNamed(FieldName(f)) == Some(f)
  {
  }

  /** A parameter's current value as text; the port in decimal. */
  function Value(p: Params, f: Field): string {
    match f
    case Host => p.host
    case Port => FormatInt(p.port)
    case Username => p.username
    case Password => p.password
    case Database => p.database
    case InventoryTable => p.inventoryTable
    case EnderChestTable => p.enderChestTable
    case ExperienceTable => p.experienceTable
  }

  /** `p` and `q` agree on every parameter except possibly `f`. */
  predicate SameExcept(p: Params, q: Params, f: Field) {
    forall g: Field :: g != f ==> Value(p, g) == Value(q, g)
  }

  /** Sets a text parameter. */
  function Assign(p: Params, f: Field, v: string): Params
    requires f != Port
  {
    match f
    case Host => p.(host := v)
    case Username => p.(username := v)
    case Password => p.(password := v)
    case Database => p.(database := v)
    case InventoryTable => p.(inventoryTable := v)
    case EnderChestTable => p.(enderChestTable := v)
    case ExperienceTable => p.(experienceTable := v)
  }

  /** What the command reports: the help menu alone, the help menu and a
      confirmation, a rejection, or the exception printing the help menu
      threw. */
  datatype CommandOutcome = ShowHelp | SetSucceeded | SetFailed | HelpMenuThrew(error: string)

  /** A `set` command that names a parameter (in any letter case) and gives
      it a value it can hold: a port must parse as an `int`. */
  predicate Accepted(args: seq<string>) {
    && |args| == 2
    && FieldNamed(Lower(args[0])).Some?
    && (FieldNamed(Lower(args[0])) == Some(Port) ==> ParseInt(args[1]).Some?)
  }

  /** The parameters after `set name value`, or `None` when the name is
      unknown or the port does not parse. */
  function SetParameter(p: Params, name: string, value: string): (r: Option<Params>)
    ensures r.Some? <==> Accepted([name, value])
    ensures r.Some? ==>
      var f := FieldNamed(Lower(name)).value;
      SameExcept(p, r.value, f) &&
      (f == Port ==> r.value.port == ParseInt(value).value) &&
      (f != Port ==> Value(r.value, f) == value)
  {
    match FieldNamed(Lower(name))
    case None => None
    case Some(f) =>
      if f == Port then
        match ParseInt(value)
        case None => None
        case Some(n) => Some(p.(port := n))
      else Some(Assign(p, f, value))
  }

  /** The help menu for `q` is printed; `shown` is reported unless that throws. */
  function AfterHelpMenu(q: Params, obfuscate: string -> string, shown: CommandOutcome): (Params, CommandOutcome) {
    match HelpMenu(q, obfuscate)
    case Success(_) => (q, shown)
    case Failure(e) => (q, HelpMenuThrew(e))
  }

  /** `handleConfigurationCommand(args)`: with exactly two arguments, the
      parameter named by the first is set to the second and the help menu is
      printed; with any other number the help menu alone is printed. The
      parameter keeps its new value when printing the menu throws. */
  function HandleCommand(p: Params, obfuscate: string -> string, args: seq<string>): (r: (Params, CommandOutcome))
    ensures |args| == 2 ==> r.1 != ShowHelp
    ensures r.1 == SetFailed <==> |args| == 2 && !Accepted(args)
    ensures !Accepted(args) ==> r.0 == p
    ensures Accepted(args) ==>
      var f := FieldNamed(Lower(args[0])).value;
      SameExcept(p, r.0, f) &&
      (f == Port ==> r.0.port == ParseInt(args[1]).value) &&
      (f != Port ==> Value(r.0, f) == args[1])
    ensures r.1 != SetFailed ==>
      match HelpMenu(r.0, obfuscate)
      case Success(_) => r.1 == (if |args| == 2 then SetSucceeded else ShowHelp)
      case Failure(e) => r.1 == HelpMenuThrew(e)
    ensures Renderable(r.0, obfuscate) ==> !r.1.HelpMenuThrew?
  {
    if |args| != 2 then AfterHelpMenu(p, obfuscate, ShowHelp)
    else
      assert args == [args[0], args[1]];
      match SetParameter(p, args[0], args[1])
      case None => (p, SetFailed)
      case Some(q) => AfterHelpMenu(q, obfuscate, SetSucceeded)
  }

  /** The parameter name is matched without regard to letter case. */
  lemma HandleCommandIgnoresCase(p: Params, obfuscate: string -> string, name1: string, name2: string, value: string)
    requires Lower(name1) == Lower(name2)
    ensures HandleCommand(p, obfuscate, [name1, value]) == HandleCommand(p, obfuscate, [name2, value])
  {
  }

  /** `players_table` names no parameter of this migrator, and `33o7` is no
      port: both commands are rejected and change nothing. */
  lemma RejectedCommandExamples(p: Params, obfuscate: string -> string, value: string)
    ensures HandleCommand(p, obfuscate, ["players_table", value]) == (p, SetFailed)
    ensures HandleCommand(p, obfuscate, ["port", "33o7"]) == (p, SetFailed)
  {
    assert Lower("players_table") == "players_table";
    assert !Accepted(["players_table", value]);
    assert Lower("port") == "port";
    PortExamplesParse();
    assert !Accepted(["port", "33o7"]);
  }

  // ---------------------------------------------------------------------
  // The help menu
  // ---------------------------------------------------------------------

  /** The parameters in the order the menu lists them. */
  const Fields: seq<Field> :=
    [Host, Port, Username, Password, Database, InventoryTable, EnderChestTable, ExperienceTable]

  /** Where a parameter stands in `Fields`. */
  function Position(f: Field): (i: nat)
    ensures i < |Fields| && Fields[i] == f
  {
    match f
    case Host => 0
    case Port => 1
    case Username => 2
    case Password => 3
    case Database => 4
    case InventoryTable => 5
    case EnderChestTable => 6
    case ExperienceTable => 7
  }

  /** The placeholder each parameter is shown through; the experience table
      goes by `source_xp_table`. */
  function PlaceholderName(f: Field): Name {
    match f
    case Host => "source_host"
    case Port => "source_port"
    case Username => "source_username"
    case Password => "source_password"
    case Database => "source_database"
    case InventoryTable => "source_inventory_table"
    case EnderChestTable => "source_ender_chest_table"
    case ExperienceTable => "source_xp_table"
  }

  /** No two parameters share a placeholder. */
  lemma PlaceholderNameInjective(f: Field, g: Field)
    ensures PlaceholderName(f) == PlaceholderName(g) ==> f == g
  {
  }

  /** The start of each parameter's line. */
  function Caption(f: Field): PlainText {
    match f
    case Host => "- host: "
    case Port => "- port: "
    case Username => "- username: "
    case Password => "- password: "
    case Database => "- database: "
    case InventoryTable => "- inventory_table: "
    case EnderChestTable => "- ender_chest_table: "
    case ExperienceTable => "- experience_table: "
  }

  /** The title and the first line of the introduction. */
  const Title: seq<Line> := [
    Text(["=== ", "MySQLPlayerDataBridge ", "Migration ", "Wizard ", "==========\n"]),
    Text(["This will ", "migrate ", "inventories, ", "ender ", "chests ", "and XP\n"])
  ]

  /** The rest of the introduction. */
  const Purpose: seq<Line> := [
    Text(["from the ", "MySQLPlayerDataBridge ", "plugin to ", "HuskSync.\n"]),
    Text(["\n"])
  ]

  /** What is not migrated. */
  const Scope: seq<Line> := [
    Text(["To ", "prevent ", "excessive ", "migration ", "times, ", "other ", "non-vital\n"]),
    Text(["data will ", "not be ", "transferred.\n"]),
    Text(["\n"])
  ]

  /** Step 2: which database to connect to, and the request to check the parameters listed next. */
  const SourceDatabase: seq<Line> := [
    Text(["used to ", "hold the ", "source ", "MySQLPlayerDataBridge ", "data.\n"]),
    Text(["Please ", "check ", "these ", "database ", "parameters ", "are OK:\n"])
  ]

  /** The `set` command and an example. */
  const SetUsage: seq<Line> := [
    Text(["\"husksync ", "migrate ", "mpdb set ", "<parameter> ", "<value>\"\n"]),
    Text(["(e.g.: ", "\"husksync ", "migrate ", "mpdb set ", "host ", "1.2.3.4\")\n"])
  ]

  /** The start command. */
  const StartUsage: seq<Line> := [
    Text(["\"husksync ", "migrate ", "mpdb ", "start\"\n"])
  ]

  /** One line per parameter, each ending in the parameter's placeholder. */
  const Settings: seq<Line> :=
    [ Setting(Caption(Host), PlaceholderName(Host)),
      Setting(Caption(Port), PlaceholderName(Port)),
      Setting(Caption(Username), PlaceholderName(Username)),
      Setting(Caption(Password), PlaceholderName(Password)),
      Setting(Caption(Database), PlaceholderName(Database)),
      Setting(Caption(InventoryTable), PlaceholderName(InventoryTable)),
      Setting(Caption(EnderChestTable), PlaceholderName(EnderChestTable)),
      Setting(Caption(ExperienceTable), PlaceholderName(ExperienceTable)) ]

  /** Everything above the parameter lines. */
  const Preamble: seq<Line> := Title + Purpose + Scope + Warning + StepTwo + SourceDatabase

  /** The help menu as written, line by line. */
  const HelpLines: seq<Line> :=
    Preamble + Settings + CorrectionPrompt + SetUsage + StepThree + StepThreeEnd + StepFour + StartUsage

  /** Host, username and password are never shown in clear. */
  predicate Obfuscated(f: Field) {
    f == Host || f == Username || f == Password
  }

  /** What the help menu puts in place of a parameter's placeholder. */
  function Shown(p: Params, obfuscate: string -> string, f: Field): string {
    if Obfuscated(f) then obfuscate(Value(p, f)) else Value(p, f)
  }

  /** The `replaceAll` chain, in source order. */
  function HelpSubstitutions(p: Params, obfuscate: string -> string): seq<(string, string)> {
    seq(|Fields|, i requires 0 <= i < |Fields| => (PlaceholderName(Fields[i]), Shown(p, obfuscate, Fields[i])))
  }

  /** Every shown value is inserted literally by `replaceAll`. */
  predicate Renderable(p: Params, obfuscate: string -> string) {
    forall f: Field :: LiteralReplacement(Shown(p, obfuscate, f))
  }

  /** `getHelpMenu()`: the menu text with each placeholder replaced in turn.
      `Failure` is the exception `replaceAll` throws on a value it cannot
      read; values without `$` and `\\` are inserted as they stand. */
  function HelpMenu(p: Params, obfuscate: string -> string): (r: Result<string>)
    ensures Renderable(p, obfuscate) ==> r == Success(Render(HelpLines, HelpSubstitutions(p, obfuscate)))
    ensures Readable(HelpSubstitutions(p, obfuscate)) ==>
      r == Success(Render(HelpLines, ReadValues(HelpSubstitutions(p, obfuscate))))
  {
    var subs := HelpSubstitutions(p, obfuscate);
    assert Renderable(p, obfuscate) ==> forall j :: 0 <= j < |subs| ==> LiteralReplacement(subs[j].1);
    JavaRender(HelpLines, subs)
  }

  /** A value `replaceAll` cannot read makes `getHelpMenu()` throw, once the
      parameters listed before it were shown literally. */
  lemma HelpMenuThrows(p: Params, obfuscate: string -> string, f: Field)
    requires forall g: Field :: '%' !in Shown(p, obfuscate, g)
    requires forall g: Field :: Position(g) < Position(f) ==> LiteralReplacement(Shown(p, obfuscate, g))
    requires ExpandReplacement(Shown(p, obfuscate, f), Placeholder(PlaceholderName(f))).Failure?
    ensures HelpMenu(p, obfuscate).Failure?
  {
    var subs := HelpSubstitutions(p, obfuscate);
    var i := Position(f);
    SettingLine(f);
    EarlierPlaceholdersDiffer(p, obfuscate, f);
    forall j | 0 <= j < i
      ensures LiteralReplacement(subs[j].1)
    {
      ListedAt(j);
    }
    SubstitutionsSafe(p, obfuscate);
    JavaRenderThrows(HelpLines, subs, |Preamble| + i, i);
  }

  /** Values without `%` make a chain that fills placeholders safely. */
  lemma SubstitutionsSafe(p: Params, obfuscate: string -> string)
    requires forall g: Field :: '%' !in Shown(p, obfuscate, g)
    ensures SafeSubstitutions(HelpSubstitutions(p, obfuscate))
  {
  }

  /** `Position` reads `Fields` back. */
  lemma ListedAt(j: int)
    requires 0 <= j < |Fields|
    ensures Position(Fields[j]) == j
  {
  }

  /** The line of the help menu that shows parameter `f`. */
  lemma SettingLine(f: Field)
    ensures |Preamble| + Position(f) < |HelpLines|
    ensures HelpLines[|Preamble| + Position(f)] == Setting(Caption(f), PlaceholderName(f))
  {
    assert HelpLines[|Preamble| + Position(f)] == Settings[Position(f)];
  }

  /** The parameters listed before `f` are substituted through other placeholders. */
  lemma EarlierPlaceholdersDiffer(p: Params, obfuscate: string -> string, f: Field)
    ensures forall j :: 0 <= j < Position(f) ==>
      HelpSubstitutions(p, obfuscate)[j].0 != HelpSubstitutions(p, obfuscate)[Position(f)].0
  {
    forall j | 0 <= j < Position(f)
      ensures PlaceholderName(Fields[j]) != PlaceholderName(f)
    {
      PlaceholderNameInjective(Fields[j], f);
    }
  }

  /** Each parameter appears on its own line of the help menu: the port in
      decimal, database and tables verbatim, host, username and password
      only through `obfuscate`. A shown value with a `%` could be taken for
      a later placeholder, so the values are assumed free of it. */
  lemma HelpMenuShowsParameter(p: Params, obfuscate: string -> string, f: Field)
    requires Renderable(p, obfuscate)
    requires forall g: Field :: '%' !in Shown(p, obfuscate, g)
    ensures HelpMenu(p, obfuscate).Success?
    ensures Contains(HelpMenu(p, obfuscate).value, Caption(f) + Shown(p, obfuscate, f) + "\n")
    ensures f == Port ==> Shown(p, obfuscate, f) == FormatInt(p.port)
    ensures Obfuscated(f) ==> Shown(p, obfuscate, f) == obfuscate(Value(p, f))
  {
    var subs := HelpSubstitutions(p, obfuscate);
    var i := Position(f);
    SettingLine(f);
    EarlierPlaceholdersDiffer(p, obfuscate, f);
    RenderShowsSetting(HelpLines, subs, |Preamble| + i, i);
  }

  /** An accepted `set` whose new parameters print literally succeeds, and
      the help menu it prints shows the new value. */
  lemma SetThenHelpShowsValue(p: Params, obfuscate: string -> string, name: string, value: string)
    requires Accepted([name, value])
    requires var q := SetParameter(p, name, value).value;
      Renderable(q, obfuscate) && forall g: Field :: '%' !in Shown(q, obfuscate, g)
    ensures var r := HandleCommand(p, obfuscate, [name, value]);
      var f := FieldNamed(Lower(name)).value;
      && r.1 == SetSucceeded
      && Contains(HelpMenu(r.0, obfuscate).value, Caption(f) + Shown(r.0, obfuscate, f) + "\n")
      && (f != Port ==> Shown(r.0, obfuscate, f) == (if Obfuscated(f) then obfuscate(value) else value))
  {
    var q := SetParameter(p, name, value).value;
    assert HandleCommand(p, obfuscate, [name, value]).0 == q;
    HelpMenuShowsParameter(q, obfuscate, FieldNamed(Lower(name)).value);
  }

  /** `set database my$db` stores the value, then printing the help menu
      throws, so no confirmation follows. */
  lemma SetDollarValueThrows(p: Params, obfuscate: string -> string)
    requires Renderable(p, obfuscate)
    requires forall g: Field :: '%' !in Shown(p, obfuscate, g)
    ensures var r := HandleCommand(p, obfuscate, ["database", "my$db"]);
      r.0 == p.(database := "my$db") && r.1.HelpMenuThrew?
  {
    var args := ["database", "my$db"];
    var q := p.(database := "my$db");
    assert Lower(args[0]) == "database";
    assert SetParameter(p, args[0], args[1]) == Some(q);
    ThrowingReplacements(Placeholder(PlaceholderName(Database)));
    assert forall g: Field :: g != Database ==> Shown(q, obfuscate, g) == Shown(p, obfuscate, g);
    assert Shown(q, obfuscate, Database) == "my$db";
    HelpMenuThrows(q, obfuscate, Database);
  }

  // ---------------------------------------------------------------------
  // Converting one MPDB row
  // ---------------------------------------------------------------------

  /** An item stack; the migration only moves stacks between slots. */
  datatype ItemStack = ItemStack(serialized: string)

  /** The slots of an inventory, an empty slot being `None` (Java `null`). */
  type Slots = seq<Option<ItemStack>>

  /** The size of a Bukkit inventory of type `PLAYER`: 36 storage slots,
      4 armour slots and the off hand. */
  const PlayerInventorySize := 41

  /** Where the armour loop puts the first armour piece. */
  const FirstArmorSlot := 36

  /** One row of the join of the inventory, ender-chest and experience
      tables. */
  datatype MpdbData = MpdbData(
    user: User,
    serializedInventory: string,
    serializedArmor: string,
    serializedEnderChest: string,
    expLevel: Int32,
    expProgress: Float32,
    totalExp: Int32)

  /** The row as the download reads it: the `exp` column is an `int` passed
      where the record takes a `float`, so it is widened. */
  function ReadRow(user: User, inventory: string, armor: string, enderChest: string,
                   expLevel: Int32, exp: Int32, totalExp: Int32): (d: MpdbData)
    ensures d.user == user && d.serializedInventory == inventory && d.serializedArmor == armor
    ensures d.serializedEnderChest == enderChest && d.expLevel == expLevel && d.totalExp == totalExp
    ensures d.expProgress.Finite() && (d.expProgress.negative <==> exp < 0)
    ensures -0x100_0000 <= exp <= 0x100_0000 ==> Float32Value(d.expProgress) == exp as real
  {
    IntToFloatExact(if -0x100_0000 <= exp <= 0x100_0000 then exp else 0);
    MpdbData(user, inventory, armor, enderChest, expLevel, IntToFloat(exp), totalExp)
  }

  /** MPDB's item decoder and HuskSync's item serializer; each may throw. */
  datatype MpdbConverter = MpdbConverter(
    getItemStackFromSerializedData: string -> Result<Slots>,
    serializeItemStackArray: Slots -> Result<string>)

  /** The message of Bukkit's `setContents` size check. */
  const TooManyItems := "Invalid inventory size; expected 41 or less"

  /** A stand-in for the index exception `setItem` throws past the last
      slot; the JDK's own text names the index and the length, which the
      model does not reproduce. */
  const SlotOutOfRange := "Index out of bounds"

  /** `setContents` on a fresh player inventory: the items fill the first
      slots, the rest stay empty; more items than slots are rejected. */
  function SetContents(items: Slots): (r: Result<Slots>)
    ensures r.Success? <==> |items| <= PlayerInventorySize
    ensures r.Success? ==> (|r.value| == PlayerInventorySize &&
      forall j :: 0 <= j < PlayerInventorySize ==> r.value[j] == (if j < |items| then items[j] else None))
    ensures r.Failure? ==> r.error == TooManyItems
  {
    if |items| > PlayerInventorySize then Failure(TooManyItems)
    else Success(items + seq(PlayerInventorySize - |items|, _ => None))
  }

  /** `setItem(i, item)`: one slot replaced; an index past the last slot
      throws. */
  function SetItem(slots: Slots, i: nat, item: Option<ItemStack>): (r: Result<Slots>)
    ensures r.Success? <==> i < |slots|
    ensures r.Success? ==> (|r.value| == |slots| &&
      forall j :: 0 <= j < |slots| ==> r.value[j] == (if j == i then item else slots[j]))
    ensures r.Failure? ==> r.error == SlotOutOfRange
  {
    if i < |slots| then Success(slots[i := item]) else Failure(SlotOutOfRange)
  }

  /** Armour piece `k` in slot 36 + k, every other slot as it was; there is
      room for five pieces. */
  function WithArmor(slots: Slots, armor: Slots): (r: Result<Slots>)
    requires |slots| == PlayerInventorySize
    ensures r.Success? <==> FirstArmorSlot + |armor| <= PlayerInventorySize
    ensures r.Success? ==> (|r.value| == PlayerInventorySize &&
      forall j :: 0 <= j < PlayerInventorySize ==>
        r.value[j] == (if FirstArmorSlot <= j < FirstArmorSlot + |armor| then armor[j - FirstArmorSlot] else slots[j]))
    ensures r.Failure? ==> r.error == SlotOutOfRange
  {
    if FirstArmorSlot + |armor| > PlayerInventorySize then Failure(SlotOutOfRange)
    else Success(slots[..FirstArmorSlot] + armor + slots[FirstArmorSlot + |armor|..])
  }

  /** The armour loop as written: `setItem(i, armor[i - 36])` for `i` from 36
      while `i < 36 + armor.length`; the first index past the inventory
      throws. */
  method PlaceArmor(slots: Slots, armor: Slots) returns (r: Result<Slots>)
    requires |slots| == PlayerInventorySize
    ensures r == WithArmor(slots, armor)
  {
    var inventory := slots;
    var i := FirstArmorSlot;
    while i < FirstArmorSlot + |armor|
      invariant FirstArmorSlot <= i <= FirstArmorSlot + |armor| && i <= PlayerInventorySize
      invariant |inventory| == PlayerInventorySize
      invariant forall j :: 0 <= j < PlayerInventorySize ==>
        inventory[j] == (if FirstArmorSlot <= j < i then armor[j - FirstArmorSlot] else slots[j])
      decreases FirstArmorSlot + |armor| - i
    {
      var placed := SetItem(inventory, i, armor[i - FirstArmorSlot]);
      if placed.Failure? {
        assert WithArmor(slots, armor).Failure?;
        return placed;
      }
      inventory := placed.value;
      i := i + 1;
    }
    assert inventory == WithArmor(slots, armor).value;
    r := Success(inventory);
  }

  /** The inventory the conversion serializes: the decoded contents from the
      first slot on, then the armour from slot 36 on. */
  function CombinedInventory(contents: Slots, armor: Slots): (r: Slots)
    ensures |r| == PlayerInventorySize
  {
    seq(PlayerInventorySize, j requires 0 <= j < PlayerInventorySize =>
      if FirstArmorSlot <= j < FirstArmorSlot + |armor| then armor[j - FirstArmorSlot]
      else if j < |contents| then contents[j] else None)
  }

  /** The status MPDB rows get: full health (20 of 20, no health scale), full
      hunger (20, saturation 10, exhaustion 1), slot 0, survival mode, not
      flying; only the experience comes from the row. The source passes the
      `int` literals 20, 0, 10 and 1 where `double` and `float` are expected;
      `IntToDouble` and `IntToFloat` spell out that constant widening. */
  function MpdbStatus(row: MpdbData): (s: StatusData)
    ensures s.health.Finite() && s.maxHealth.Finite() && s.healthScale.Finite()
    ensures Float64Value(s.health) == 20.0 && Float64Value(s.maxHealth) == 20.0
    ensures Float64Value(s.healthScale) == 0.0
    ensures s.saturation.Finite() && s.saturationExhaustion.Finite()
    ensures s.hunger == 20 && Float32Value(s.saturation) == 10.0
    ensures Float32Value(s.saturationExhaustion) == 1.0 && s.selectedItemSlot == 0
    ensures s.totalExperience == row.totalExp && s.expLevel == row.expLevel
    ensures s.expProgress == row.expProgress
    ensures s.gameMode == "SURVIVAL" && !s.isFlying
  {
    IntToDoubleExact(20);
    IntToDoubleExact(0);
    IntToFloatExact(10);
    IntToFloatExact(1);
    StatusData(IntToDouble(20), IntToDouble(20), IntToDouble(0), 20, IntToFloat(10), IntToFloat(1), 0,
               row.totalExp, row.expLevel, row.expProgress, "SURVIVAL", false)
  }

  /** `MpdbData.toUserData`: decode the inventory and put it in a player
      inventory, decode the armour and place it, serialize the inventory,
      then decode and serialize the ender chest; the first exception ends
      the conversion. Only status, inventory and ender chest are set. */
  function ToUserData(row: MpdbData, converter: MpdbConverter, minecraftVersion: string): (r: Result<UserData>)
    ensures
      var decode, serialize := converter.getItemStackFromSerializedData, converter.serializeItemStackArray;
      var contents, armor, ender := decode(row.serializedInventory), decode(row.serializedArmor),
                                    decode(row.serializedEnderChest);
      && (r.Success? <==>
            && contents.Success? && |contents.value| <= PlayerInventorySize
            && armor.Success? && FirstArmorSlot + |armor.value| <= PlayerInventorySize
            && serialize(CombinedInventory(contents.value, armor.value)).Success?
            && ender.Success? && serialize(ender.value).Success?)
      && (contents.Failure? ==> r == Failure(contents.error))
      && (contents.Success? && |contents.value| > PlayerInventorySize ==> r == Failure(TooManyItems))
      && (contents.Success? && |contents.value| <= PlayerInventorySize ==>
            && (armor.Failure? ==> r == Failure(armor.error))
            && (armor.Success? && FirstArmorSlot + |armor.value| > PlayerInventorySize ==> r == Failure(SlotOutOfRange))
            && (armor.Success? && FirstArmorSlot + |armor.value| <= PlayerInventorySize ==>
                  var inventoryText := serialize(CombinedInventory(contents.value, armor.value));
                  && (inventoryText.Failure? ==> r == Failure(inventoryText.error))
                  && (inventoryText.Success? && ender.Failure? ==> r == Failure(ender.error))
                  && (inventoryText.Success? && ender.Success? && serialize(ender.value).Failure? ==>
                        r == Failure(serialize(ender.value).error))))
      && (r.Success? ==>
            var d := r.value;
            && d.minecraftVersion == minecraftVersion
            && d.status == Some(MpdbStatus(row))
            && d.inventory == Some(ItemData(serialize(CombinedInventory(contents.value, armor.value)).value))
            && d.enderChest == Some(ItemData(serialize(ender.value).value))
            && d.potionEffects.None? && d.advancements.None? && d.statistics.None? && d.location.None?)
  {
    var decode, serialize := converter.getItemStackFromSerializedData, converter.serializeItemStackArray;
    var contents :- decode(row.serializedInventory);
    var inventory :- SetContents(contents);
    var armor :- decode(row.serializedArmor);
    var combined :- WithArmor(inventory, armor);
    assert combined == CombinedInventory(contents, armor);
    var inventoryText :- serialize(combined);
    var ender :- decode(row.serializedEnderChest);
    var enderText :- serialize(ender);
    Success(Builder(minecraftVersion).(
      status := Some(MpdbStatus(row)),
      inventory := Some(ItemData(inventoryText)),
      enderChest := Some(ItemData(enderText))))
  }

  /** A conversion fails before serializing anything when the decoded
      inventory holds more than 41 stacks or the armour more than five. */
  lemma OversizedInventoryFails(row: MpdbData, converter: MpdbConverter, minecraftVersion: string)
    requires var decode := converter.getItemStackFromSerializedData;
      var contents, armor := decode(row.serializedInventory), decode(row.serializedArmor);
      (contents.Success? && |contents.value| > PlayerInventorySize) ||
      (armor.Success? && |armor.value| > PlayerInventorySize - FirstArmorSlot)
    ensures ToUserData(row, converter, minecraftVersion).Failure?
  {
  }

  // ---------------------------------------------------------------------
  // The batch run
  // ---------------------------------------------------------------------

  /** The converted rows, in download order. */
  function Stage(rows: seq<MpdbData>, converter: MpdbConverter, minecraftVersion: string): (staged: seq<Staged>)
    ensures |staged| == |rows|
  {
    seq(|rows|, i requires 0 <= i < |rows| => (rows[i].user, ToUserData(rows[i], converter, minecraftVersion)))
  }

  /** The events of one converted row: ensure the user, then save the
      snapshot, or log the user if `ensureUser` failed. The save's own
      outcome is never looked at. */
  function Step(db: TargetDatabase, u: User, d: UserData): (e: seq<Event>)
    ensures EnsuredBeforeWritten(e, MpdbMigration) && WipeDatabase !in e
    ensures |e| == 2 && e[0] == EnsureUser(u)
    ensures e[1] == if db.ensureSucceeds(u) then SetUserData(u, d, MpdbMigration) else LogFailure(u)
  {
    if db.ensureSucceeds(u) then [EnsureUser(u), SetUserData(u, d, MpdbMigration)]
    else [EnsureUser(u), LogFailure(u)]
  }

  /** The loop over converted rows: a failed `ensureUser` is logged and the
      loop goes on; a failed conversion ends the run with `false`. */
  function Batch(db: TargetDatabase, staged: seq<Staged>): (r: (seq<Event>, bool))
    ensures WipeDatabase !in r.0
    ensures |r.0| % 2 == 0 && |r.0| <= 2 * |staged|
    ensures r.1 ==> |r.0| == 2 * |staged|
    decreases |staged|
  {
    if staged == [] then ([], true)
    else
      match staged[0].1
      case Failure(_) => ([], false)
      case Success(d) =>
        var rest := Batch(db, staged[1..]);
        (Step(db, staged[0].0, d) + rest.0, rest.1)
  }

  /** Every save of the batch follows the `ensureUser` of its user, and the
      batch never wipes. */
  lemma {:induction false} BatchEnsuresBeforeSaving(db: TargetDatabase, staged: seq<Staged>)
    ensures EnsuredBeforeWritten(Batch(db, staged).0, MpdbMigration)
    ensures WipeDatabase !in Batch(db, staged).0
    decreases |staged|
  {
    if staged != [] && staged[0].1.Success? {
      BatchEnsuresBeforeSaving(db, staged[1..]);
      EnsuredBeforeWrittenAppend(Step(db, staged[0].0, staged[0].1.value), Batch(db, staged[1..]).0, MpdbMigration);
    }
  }

  /** The batch reports success exactly when every row converts; a failed
      `ensureUser` does not count against it. */
  lemma {:induction false} BatchSucceedsIff(db: TargetDatabase, staged: seq<Staged>)
    ensures Batch(db, staged).1 <==> forall i :: 0 <= i < |staged| ==> staged[i].1.Success?
    decreases |staged|
  {
    if staged != [] {
      BatchSucceedsIff(db, staged[1..]);
      if forall i :: 0 <= i < |staged| ==> staged[i].1.Success? {
        forall i | 0 <= i < |staged| - 1
          ensures staged[1..][i].1.Success?
        {
          assert staged[1..][i] == staged[i + 1];
        }
      } else if staged[0].1.Success? {
        var i :| 0 <= i < |staged| && !staged[i].1.Success?;
        assert staged[1..][i - 1] == staged[i];
      }
    }
  }

  /** When every row converts, the batch is, row by row: `ensureUser`, then
      the save of the row's snapshot or, if `ensureUser` failed, a log
      entry. */
  lemma {:induction false} BatchHandlesEveryRow(db: TargetDatabase, staged: seq<Staged>)
    requires forall i :: 0 <= i < |staged| ==> staged[i].1.Success?
    ensures var events := Batch(db, staged).0;
      |events| == 2 * |staged| &&
      forall i :: 0 <= i < |staged| ==>
        events[2 * i] == EnsureUser(staged[i].0) &&
        events[2 * i + 1] == (if db.ensureSucceeds(staged[i].0) then SetUserData(staged[i].0, staged[i].1.value, MpdbMigration)
                              else LogFailure(staged[i].0))
    decreases |staged|
  {
    if staged != [] {
      var tail := staged[1..];
      forall i | 0 <= i < |tail|
        ensures tail[i].1.Success?
      {
        assert tail[i] == staged[i + 1];
      }
      BatchHandlesEveryRow(db, tail);
      var step := Step(db, staged[0].0, staged[0].1.value);
      var rest := Batch(db, tail).0;
      var events := step + rest;
      forall i | 0 <= i < |staged|
        ensures events[2 * i] == EnsureUser(staged[i].0)
        ensures events[2 * i + 1] == (if db.ensureSucceeds(staged[i].0) then SetUserData(staged[i].0, staged[i].1.value, MpdbMigration)
                                      else LogFailure(staged[i].0))
      {
        if i > 0 {
          assert staged[i] == tail[i - 1];
          assert events[2 * i] == rest[2 * (i - 1)];
          assert events[2 * i + 1] == rest[2 * (i - 1) + 1];
        }
      }
    }
  }

  /** `start()`: wipe the target database, download the rows, run the batch.
      A failed wipe happens before the `try`, so the future completes
      exceptionally; a failed download resolves `false`. */
  function Start(db: TargetDatabase, download: Result<seq<MpdbData>>, converter: MpdbConverter,
                 minecraftVersion: string): (r: Run)
    ensures |r.events| > 0 && r.events[0] == WipeDatabase
    ensures r.outcome == CompletedExceptionally <==> !db.wipeSucceeds
    ensures (!db.wipeSucceeds || download.Failure?) ==> r.events == [WipeDatabase] && r.outcome != Resolved(true)
  {
    if !db.wipeSucceeds then Run([WipeDatabase], CompletedExceptionally)
    else
      match download
      case Failure(_) => Run([WipeDatabase], Resolved(false))
      case Success(rows) =>
        var batch := Batch(db, Stage(rows, converter, minecraftVersion));
        Run([WipeDatabase] + batch.0, Resolved(batch.1))
  }

  /** A run wipes once, first, and saves each snapshot right after ensuring
      its user. */
  lemma StartEnsuresBeforeSaving(db: TargetDatabase, download: Result<seq<MpdbData>>, converter: MpdbConverter,
                                 minecraftVersion: string)
    ensures var events := Start(db, download, converter, minecraftVersion).events;
      WipeDatabase !in events[1..] && EnsuredBeforeWritten(events, MpdbMigration)
  {
    if db.wipeSucceeds && download.Success? {
      var staged := Stage(download.value, converter, minecraftVersion);
      var batch := Batch(db, staged);
      BatchEnsuresBeforeSaving(db, staged);
      EnsuredBeforeWrittenAppend([WipeDatabase], batch.0, MpdbMigration);
      assert ([WipeDatabase] + batch.0)[1..] == batch.0;
    } else {
      assert [WipeDatabase][1..] == [];
    }
  }

  /** A run resolves `true` exactly when the wipe and the download succeed
      and every row converts. */
  lemma StartSucceedsIff(db: TargetDatabase, download: Result<seq<MpdbData>>, converter: MpdbConverter,
                         minecraftVersion: string)
    ensures Start(db, download, converter, minecraftVersion).outcome == Resolved(true) <==>
      db.wipeSucceeds && download.Success? &&
      forall i :: 0 <= i < |download.value| ==> ToUserData(download.value[i], converter, minecraftVersion).Success?
  {
    if db.wipeSucceeds && download.Success? {
      var rows := download.value;
      var staged := Stage(rows, converter, minecraftVersion);
      BatchSucceedsIff(db, staged);
      forall i | 0 <= i < |rows|
        ensures staged[i].1 == ToUserData(rows[i], converter, minecraftVersion)
      {
      }
    }
  }

  /** When the wipe and the download succeed and every row converts, the run
      resolves `true`, and after the wipe handles each row in download
      order: `ensureUser`, then the save of its snapshot or a log entry. */
  lemma SuccessfulRunHandlesEveryRow(db: TargetDatabase, rows: seq<MpdbData>, converter: MpdbConverter,
                                     minecraftVersion: string)
    requires db.wipeSucceeds
    requires forall i :: 0 <= i < |rows| ==> ToUserData(rows[i], converter, minecraftVersion).Success?
    ensures var r := Start(db, Success(rows), converter, minecraftVersion);
      r.outcome == Resolved(true) && |r.events| == 1 + 2 * |rows| &&
      forall i :: 0 <= i < |rows| ==>
        var u := rows[i].user;
        r.events[1 + 2 * i] == EnsureUser(u) &&
        r.events[2 + 2 * i] ==
          (if db.ensureSucceeds(u) then SetUserData(u, ToUserData(rows[i], converter, minecraftVersion).value, MpdbMigration)
           else LogFailure(u))
  {
    var staged := Stage(rows, converter, minecraftVersion);
    assert forall i :: 0 <= i < |staged| ==> staged[i].1.Success? by {
      forall i | 0 <= i < |staged|
        ensures staged[i].1.Success?
      {
        assert staged[i] == (rows[i].user, ToUserData(rows[i], converter, minecraftVersion));
      }
    }
    BatchSucceedsIff(db, staged);
    BatchHandlesEveryRow(db, staged);
    var batch := Batch(db, staged);
    var events := [WipeDatabase] + batch.0;
    assert Start(db, Success(rows), converter, minecraftVersion) == Run(events, Resolved(batch.1));
    forall i | 0 <= i < |rows|
      ensures events[1 + 2 * i] == EnsureUser(rows[i].user)
      ensures events[2 + 2 * i] ==
          (if db.ensureSucceeds(rows[i].user)
           then SetUserData(rows[i].user, ToUserData(rows[i], converter, minecraftVersion).value, MpdbMigration)
           else LogFailure(rows[i].user))
    {
      assert staged[i] == (rows[i].user, ToUserData(rows[i], converter, minecraftVersion));
      assert events[1 + 2 * i] == batch.0[2 * i];
      assert events[2 + 2 * i] == batch.0[2 * i + 1];
    }
  }

  /** A conversion that fails stops the run: nothing is done for the rows
      after it, and the run resolves `false`. */
  lemma {:induction false} BatchStopsAtFailedConversion(db: TargetDatabase, staged: seq<Staged>, k: nat)
    requires k < |staged| && staged[k].1.Failure?
    requires forall i :: 0 <= i < k ==> staged[i].1.Success?
    ensures Batch(db, staged) == (Batch(db, staged[..k]).0, false)
    decreases k
  {
    if k > 0 {
      assert staged[0].1.Success?;
      assert staged[1..][..k - 1] == staged[..k][1..];
      forall i | 0 <= i < k - 1
        ensures staged[1..][i].1.Success?
      {
        assert staged[1..][i] == staged[i + 1];
      }
      BatchStopsAtFailedConversion(db, staged[1..], k - 1);
      assert staged[..k][0] == staged[0];
    }
  }

  /** At the level of `start()`: the run after a failed conversion of row `k`
      is the run over the rows before it, resolved `false`. */
  lemma StartStopsAtFailedConversion(db: TargetDatabase, rows: seq<MpdbData>, converter: MpdbConverter,
                                     minecraftVersion: string, k: nat)
    requires db.wipeSucceeds && k < |rows|
    requires ToUserData(rows[k], converter, minecraftVersion).Failure?
    requires forall i :: 0 <= i < k ==> ToUserData(rows[i], converter, minecraftVersion).Success?
    ensures var r := Start(db, Success(rows), converter, minecraftVersion);
      r.outcome == Resolved(false) &&
      r.events == Start(db, Success(rows[..k]), converter, minecraftVersion).events
  {
    var staged := Stage(rows, converter, minecraftVersion);
    BatchStopsAtFailedConversion(db, staged, k);
    assert staged[..k] == Stage(rows[..k], converter, minecraftVersion);
  }
}
