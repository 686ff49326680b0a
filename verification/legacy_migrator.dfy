/** The migrator from HuskSync v1.x ("legacy") data: its connection
    parameters and the `set` command that edits them, the help menu, the
    conversion of one legacy row into a snapshot, and the batch run. */
module LegacyMigrator {
  import opened Wrappers
  import opened Text
  import opened HelpText
  import opened JavaInt
  import opened JavaFloat
  import opened Users
  import opened Snapshot
  import opened StatisticConversion
  import opened Migration

  // ---------------------------------------------------------------------
  // Parameters and the `set` command
  // ---------------------------------------------------------------------

  /** Where the legacy data lives. */
  datatype Params = Params(
    host: string,
    port: Int32,
    username: string,
    password: string,
    database: string,
    playersTable: string,
    dataTable: string)

  /** The plugin's own database settings, which the parameters start from. */
  datatype DatabaseSettings = DatabaseSettings(
    mySqlHost: string,
    mySqlPort: Int32,
    mySqlUsername: string,
    mySqlPassword: string,
    mySqlDatabase: string)

  /** The constructor: connection details from the plugin settings, the
      tables of HuskSync v1.x by their default names. */
  function InitialParams(settings: DatabaseSettings): (p: Params)
    ensures p.host == settings.mySqlHost && p.port == settings.mySqlPort
    ensures p.username == settings.mySqlUsername && p.password == settings.mySqlPassword
    ensures p.database == settings.mySqlDatabase
    ensures p.playersTable == "husksync_players" && p.dataTable == "husksync_data"
  {
    Params(settings.mySqlHost, settings.mySqlPort, settings.mySqlUsername,
           settings.mySqlPassword, settings.mySqlDatabase, "husksync_players", "husksync_data")
  }

  /** The parameters a `set` command can name. */
  datatype Field = Host | Port | Username | Password | Database | PlayersTable | DataTable

  /** The name a command uses for each parameter. */
  function FieldName(f: Field): string {
    match f
    case Host => "host"
    case Port => "port"
    case Username => "username"
    case Password => "password"
    case Database => "database"
    case PlayersTable => "players_table"
    case DataTable => "data_table"
  }

  /** The parameter a (lower-cased) command name selects, if any. */
  function FieldNamed(name: string): (f: Option<Field>)
    ensures f.Some? ==> FieldName(f.value) == name
  {
    if name == "host" then Some(Host)
    else if name == "port" then Some(Port)
    else if name == "username" then Some(Username)
    else if name == "password" then Some(Password)
    else if name == "database" then Some(Database)
    else if name == "players_table" then Some(PlayersTable)
    else if name == "data_table" then Some(DataTable)
    else None
  }

  /** Every parameter is selected by its own name: the selection is a
      bijection between the seven names and the seven parameters. */
  lemma FieldNamedInverts(f: Field)
    ensures FieldNamed(FieldName(f)) == Some(f)
  {
  }

  /** A parameter's current value as text; the port in decimal. */
  function Value(p: Params, f: Field): string {
    match f
    case Host => p.host
    case Port => FormatInt(p.port)
    case Username => p.username
    case Password => p.password
    case Database => p.database
    case PlayersTable => p.playersTable
    case DataTable => p.dataTable
  }

  /** `p` and `q` agree on every parameter except possibly `f`. */
  predicate SameExcept(p: Params, q: Params, f: Field) {
    forall g: Field :: g != f ==> Value(p, g) == Value(q, g)
  }

  /** Sets a text parameter. */
  function Assign(p: Params, f: Field, v: string): Params
    requires f != Port
  {
    match f
    case Host => p.(host := v)
    case Username => p.(username := v)
    case Password => p.(password := v)
    case Database => p.(database := v)
    case PlayersTable => p.(playersTable := v)
    case DataTable => p.(dataTable := v)
  }

  /** What the command reports: the help menu alone, the help menu and a
      confirmation, a rejection, or the exception printing the help menu
      threw. */
  datatype CommandOutcome = ShowHelp | SetSucceeded | SetFailed | HelpMenuThrew(error: string)

  /** A `set` command that names a parameter (in any letter case) and gives
      it a value it can hold: a port must parse as an `int`. */
  predicate Accepted(args: seq<string>) {
    && |args| == 2
    && FieldNamed(Lower(args[0])).Some?
    && (FieldNamed(Lower(args[0])) == Some(Port) ==> ParseInt(args[1]).Some?)
  }

  /** The parameters after `set name value`, or `None` when the name is
      unknown or the port does not parse. */
  function SetParameter(p: Params, name: string, value: string): (r: Option<Params>)
    ensures r.Some? <==> Accepted([name, value])
    ensures r.Some? ==>
      var f := FieldNamed(Lower(name)).value;
      SameExcept(p, r.value, f) &&
      (f == Port ==> r.value.port == ParseInt(value).value) &&
      (f != Port ==> Value(r.value, f) == value)
  {
    match FieldNamed(Lower(name))
    case None => None
    case Some(f) =>
      if f == Port then
        match ParseInt(value)
        case None => None
        case Some(n) => Some(p.(port := n))
      else Some(Assign(p, f, value))
  }

  /** The help menu for `q` is printed; `shown` is reported unless that throws. */
  function AfterHelpMenu(q: Params, obfuscate: string -> string, shown: CommandOutcome): (Params, CommandOutcome) {
    match HelpMenu(q, obfuscate)
    case Success(_) => (q, shown)
    case Failure(e) => (q, HelpMenuThrew(e))
  }

  /** `handleConfigurationCommand(args)`: with exactly two arguments, the
      parameter named by the first is set to the second and the help menu is
      printed; with any other number the help menu alone is printed. The
      parameter keeps its new value when printing the menu throws. */
  function HandleCommand(p: Params, obfuscate: string -> string, args: seq<string>): (r: (Params, CommandOutcome))
    ensures |args| == 2 ==> r.1 != ShowHelp
    ensures r.1 == SetFailed <==> |args| == 2 && !Accepted(args)
    ensures !Accepted(args) ==> r.0 == p
    ensures Accepted(args) ==>
      var f := FieldNamed(Lower(args[0])).value;
      SameExcept(p, r.0, f) &&
      (f == Port ==> r.0.port == ParseInt(args[1]).value) &&
      (f != Port ==> Value(r.0, f) == args[1])
    ensures r.1 != SetFailed ==>
      match HelpMenu(r.0, obfuscate)
      case Success(_) => r.1 == (if |args| == 2 then SetSucceeded else ShowHelp)
      case Failure(e) => r.1 == HelpMenuThrew(e)
    ensures Renderable(r.0, obfuscate) ==> !r.1.HelpMenuThrew?
  {
    if |args| != 2 then AfterHelpMenu(p, obfuscate, ShowHelp)
    else
      assert args == [args[0], args[1]];
      match SetParameter(p, args[0], args[1])
      case None => (p, SetFailed)
      case Some(q) => AfterHelpMenu(q, obfuscate, SetSucceeded)
  }

  /** The parameter name is matched without regard to letter case. */
  lemma HandleCommandIgnoresCase(p: Params, obfuscate: string -> string, name1: string, name2: string, value: string)
    requires Lower(name1) == Lower(name2)
    ensures HandleCommand(p, obfuscate, [name1, value]) == HandleCommand(p, obfuscate, [name2, value])
  {
  }

  /** `set Port 3307` sets the port, and reports success when the other
      values print; `set port 33o7` is rejected. */
  lemma SetPortExamples(p: Params, obfuscate: string -> string)
    ensures HandleCommand(p, obfuscate, ["Port", "3307"]).0 == p.(port := 3307)
    ensures Renderable(p, obfuscate) ==>
      HandleCommand(p, obfuscate, ["Port", "3307"]) == (p.(port := 3307), SetSucceeded)
    ensures HandleCommand(p, obfuscate, ["port", "33o7"]) == (p, SetFailed)
  {
    assert Lower("Port") == "port";
    assert Lower("port") == "port";
    PortExamplesParse();
    var q := p.(port := 3307);
    assert SetParameter(p, "Port", "3307") == Some(q);
    assert SetParameter(p, "port", "33o7") == None;
    if Renderable(p, obfuscate) {
      PortKeepsRenderable(p, obfuscate, 3307);
    }
  }

  /** The port is shown in decimal, which `replaceAll` inserts as it stands. */
  lemma PortKeepsRenderable(p: Params, obfuscate: string -> string, n: Int32)
    requires Renderable(p, obfuscate)
    ensures Renderable(p.(port := n), obfuscate)
  {
    FormatIntIsPlain(n);
    forall f: Field
      ensures LiteralReplacement(Shown(p.(port := n), obfuscate, f))
    {
      if f != Port {
        assert Shown(p.(port := n), obfuscate, f) == Shown(p, obfuscate, f);
      }
    }
  }

  // ---------------------------------------------------------------------
  // The help menu
  // ---------------------------------------------------------------------

  /** The parameters in the order the menu lists them. */
  const Fields: seq<Field> := [Host, Port, Username, Password, Database, PlayersTable, DataTable]

  /** Where a parameter stands in `Fields`. */
  function Position(f: Field): (i: nat)
    ensures i < |Fields| && Fields[i] == f
  {
    match f
    case Host => 0
    case Port => 1
    case Username => 2
    case Password => 3
    case Database => 4
    case PlayersTable => 5
    case DataTable => 6
  }

  /** The placeholder each parameter is shown through. */
  function PlaceholderName(f: Field): Name {
    match f
    case Host => "source_host"
    case Port => "source_port"
    case Username => "source_username"
    case Password => "source_password"
    case Database => "source_database"
    case PlayersTable => "source_players_table"
    case DataTable => "source_data_table"
  }

  /** No two parameters share a placeholder, so no replacement fills
      another parameter's line. */
  lemma PlaceholderNameInjective(f: Field, g: Field)
    ensures PlaceholderName(f) == PlaceholderName(g) ==> f == g
  {

  }

  /** The start of each parameter's line. */
  function Caption(f: Field): PlainText {
    match f
    case Host => "- host: "
    case Port => "- port: "
    case Username => "- username: "
    case Password => "- password: "
    case Database => "- database: "
    case PlayersTable => "- players_table: "
    case DataTable => "- data_table: "
  }

  /** The title and the first line of the introduction. */
  const Title: seq<Line> := [
    Text(["=== ", "HuskSync ", "v1.x --> ", "v2.x ", "Migration ", "Wizard ", "=========\n"]),
    Text(["This will ", "migrate ", "all user ", "data from ", "HuskSync ", "v1.x to\n"])
  ]

  /** The rest of the introduction. */
  const Purpose: seq<Line> := [
    Text(["HuskSync ", "v2.x's ", "new ", "format. ", "To ", "perform ", "the ", "migration,\n"]),
    Text(["please ", "follow ", "the steps ", "below ", "carefully.\n"]),
    Text(["\n"])
  ]

  /** Step 2: which database to connect to. */
  const SourceDatabase: seq<Line> := [
    Text(["used to ", "hold the ", "existing, ", "legacy ", "HuskSync ", "data.\n"]),
    Text(["If this ", "is the ", "same ", "database ", "as the ", "one you ", "are\n"])
  ]

  /** Step 2, continued. */
  const SameDatabase: seq<Line> := [
    Text(["currently ", "using, ", "you ", "probably ", "don't ", "need to ", "change\n"]),
    Text(["anything.\n"])
  ]

  /** Step 2: the request to check the parameters listed next. */
  const CheckCredentials: seq<Line> := [
    Text(["Please ", "check ", "that the ", "credentials ", "below are ", "the\n"]),
    Text(["correct ", "credentials ", "of the ", "source ", "legacy ", "HuskSync\n"]),
    Text(["database.\n"])
  ]

  /** The `set` command and an example. */
  const SetUsage: seq<Line> := [
    Text(["\"husksync ", "migrate ", "legacy ", "set ", "<parameter> ", "<value>\"\n"]),
    Text(["(e.g.: ", "\"husksync ", "migrate ", "legacy ", "set host ", "1.2.3.4\")\n"])
  ]

  /** The start command. */
  const StartUsage: seq<Line> := [
    Text(["\"husksync ", "migrate ", "legacy ", "start\"\n"])
  ]

  /** One line per parameter, each ending in the parameter's placeholder. */
  const Settings: seq<Line> :=
    [ Setting(Caption(Host), PlaceholderName(Host)),
      Setting(Caption(Port), PlaceholderName(Port)),
      Setting(Caption(Username), PlaceholderName(Username)),
      Setting(Caption(Password), PlaceholderName(Password)),
      Setting(Caption(Database), PlaceholderName(Database)),
      Setting(Caption(PlayersTable), PlaceholderName(PlayersTable)),
      Setting(Caption(DataTable), PlaceholderName(DataTable)) ]

  /** Everything above the parameter lines. */
  const Preamble: seq<Line> :=
    Title + Purpose + Warning + StepTwo + SourceDatabase + SameDatabase + CheckCredentials

  /** The help menu as written, line by line. */
  const HelpLines: seq<Line> :=
    Preamble + Settings + CorrectionPrompt + SetUsage + StepThree + StepThreeEnd + StepFour + StartUsage

  /** Host, username and password are never shown in clear. */
  predicate Obfuscated(f: Field) {
    f == Host || f == Username || f == Password
  }

  /** What the help menu puts in place of a parameter's placeholder. */
  function Shown(p: Params, obfuscate: string -> string, f: Field): string {
    if Obfuscated(f) then obfuscate(Value(p, f)) else Value(p, f)
  }

  /** The `replaceAll` chain, in source order. */
  function HelpSubstitutions(p: Params, obfuscate: string -> string): seq<(string, string)> {
    seq(|Fields|, i requires 0 <= i < |Fields| => (PlaceholderName(Fields[i]), Shown(p, obfuscate, Fields[i])))
  }

  /** Every shown value is inserted literally by `replaceAll`. */
  predicate Renderable(p: Params, obfuscate: string -> string) {
    forall f: Field :: LiteralReplacement(Shown(p, obfuscate, f))
  }

  /** `getHelpMenu()`: the menu text with each placeholder replaced in turn.
      `Failure` is the exception `replaceAll` throws on a value it cannot
      read; values without `$` and `\\` are inserted as they stand. */
  function HelpMenu(p: Params, obfuscate: string -> string): (r: Result<string>)
    ensures Renderable(p, obfuscate) ==> r == Success(Render(HelpLines, HelpSubstitutions(p, obfuscate)))
    ensures Readable(HelpSubstitutions(p, obfuscate)) ==>
      r == Success(Render(HelpLines, ReadValues(HelpSubstitutions(p, obfuscate))))
  {
    var subs := HelpSubstitutions(p, obfuscate);
    assert Renderable(p, obfuscate) ==> forall j :: 0 <= j < |subs| ==> LiteralReplacement(subs[j].1);
    JavaRender(HelpLines, subs)
  }

  /** A value `replaceAll` cannot read makes `getHelpMenu()` throw, once the
      parameters listed before it were shown literally. */
  lemma HelpMenuThrows(p: Params, obfuscate: string -> string, f: Field)
    requires forall g: Field :: '%' !in Shown(p, obfuscate, g)
    requires forall g: Field :: Position(g) < Position(f) ==> LiteralReplacement(Shown(p, obfuscate, g))
    requires ExpandReplacement(Shown(p, obfuscate, f), Placeholder(PlaceholderName(f))).Failure?
    ensures HelpMenu(p, obfuscate).Failure?
  {
    var subs := HelpSubstitutions(p, obfuscate);
    var i := Position(f);
    SettingLine(f);
    EarlierPlaceholdersDiffer(p, obfuscate, f);
    forall j | 0 <= j < i
      ensures LiteralReplacement(subs[j].1)
    {
      ListedAt(j);
    }
    SubstitutionsSafe(p, obfuscate);
    JavaRenderThrows(HelpLines, subs, |Preamble| + i, i);
  }

  /** Values without `%` make a chain that fills placeholders safely. */
  lemma SubstitutionsSafe(p: Params, obfuscate: string -> string)
    requires forall g: Field :: '%' !in Shown(p, obfuscate, g)
    ensures SafeSubstitutions(HelpSubstitutions(p, obfuscate))
  {
  }

  /** `Position` reads `Fields` back. */
  lemma ListedAt(j: int)
    requires 0 <= j < |Fields|
    ensures Position(Fields[j]) == j
  {
  }

  /** The line of the help menu that shows parameter `f`. */
  lemma SettingLine(f: Field)
    ensures |Preamble| + Position(f) < |HelpLines|
    ensures HelpLines[|Preamble| + Position(f)] == Setting(Caption(f), PlaceholderName(f))
  {
    assert HelpLines[|Preamble| + Position(f)] == Settings[Position(f)];
  }

  /** The parameters listed before `f` are substituted through other placeholders. */
  lemma EarlierPlaceholdersDiffer(p: Params, obfuscate: string -> string, f: Field)
    ensures forall j :: 0 <= j < Position(f) ==>
      HelpSubstitutions(p, obfuscate)[j].0 != HelpSubstitutions(p, obfuscate)[Position(f)].0
  {
    forall j | 0 <= j < Position(f)
      ensures PlaceholderName(Fields[j]) != PlaceholderName(f)
    {
      PlaceholderNameInjective(Fields[j], f);
    }
  }

  /** Each parameter appears on its own line of the help menu: the port in
      decimal, database and tables verbatim, host, username and password
      only through `obfuscate`. A shown value with a `%` could be taken for
      a later placeholder, so the values are assumed free of it. */
  lemma HelpMenuShowsParameter(p: Params, obfuscate: string -> string, f: Field)
    requires Renderable(p, obfuscate)
    requires forall g: Field :: '%' !in Shown(p, obfuscate, g)
    ensures HelpMenu(p, obfuscate).Success?
    ensures Contains(HelpMenu(p, obfuscate).value, Caption(f) + Shown(p, obfuscate, f) + "\n")
    ensures f == Port ==> Shown(p, obfuscate, f) == FormatInt(p.port)
    ensures Obfuscated(f) ==> Shown(p, obfuscate, f) == obfuscate(Value(p, f))
  {
    var subs := HelpSubstitutions(p, obfuscate);
    var i := Position(f);
    SettingLine(f);
    EarlierPlaceholdersDiffer(p, obfuscate, f);
    RenderShowsSetting(HelpLines, subs, |Preamble| + i, i);
  }

  /** An accepted `set` whose new parameters print literally succeeds, and
      the help menu it prints shows the new value. */
  lemma SetThenHelpShowsValue(p: Params, obfuscate: string -> string, name: string, value: string)
    requires Accepted([name, value])
    requires var q := SetParameter(p, name, value).value;
      Renderable(q, obfuscate) && forall g: Field :: '%' !in Shown(q, obfuscate, g)
    ensures var r := HandleCommand(p, obfuscate, [name, value]);
      var f := FieldNamed(Lower(name)).value;
      && r.1 == SetSucceeded
      && Contains(HelpMenu(r.0, obfuscate).value, Caption(f) + Shown(r.0, obfuscate, f) + "\n")
      && (f != Port ==> Shown(r.0, obfuscate, f) == (if Obfuscated(f) then obfuscate(value) else value))
  {
    var q := SetParameter(p, name, value).value;
    assert HandleCommand(p, obfuscate, [name, value]).0 == q;
    HelpMenuShowsParameter(q, obfuscate, FieldNamed(Lower(name)).value);
  }

  /** `set database my$db` stores the value, then printing the help menu
      throws, so no confirmation follows. */
  lemma SetDollarValueThrows(p: Params, obfuscate: string -> string)
    requires Renderable(p, obfuscate)
    requires forall g: Field :: '%' !in Shown(p, obfuscate, g)
    ensures var r := HandleCommand(p, obfuscate, ["database", "my$db"]);
      r.0 == p.(database := "my$db") && r.1.HelpMenuThrew?
  {
    var args := ["database", "my$db"];
    var q := p.(database := "my$db");
    assert Lower(args[0]) == "database";
    assert SetParameter(p, args[0], args[1]) == Some(q);
    ThrowingReplacements(Placeholder(PlaceholderName(Database)));
    assert forall g: Field :: g != Database ==> Shown(q, obfuscate, g) == Shown(p, obfuscate, g);
    assert Shown(q, obfuscate, Database) == "my$db";
    HelpMenuThrows(q, obfuscate, Database);
  }

  // ---------------------------------------------------------------------
  // Converting one legacy row
  // ---------------------------------------------------------------------

  /** One row of the join of the players and data tables. */
  datatype LegacyData = LegacyData(
    user: User,
    serializedInventory: string,
    serializedEnderChest: string,
    health: Float64,
    maxHealth: Float64,
    healthScale: Float64,
    hunger: Int32,
    saturation: Float32,
    saturationExhaustion: Float32,
    selectedSlot: Int32,
    serializedPotionEffects: string,
    totalExp: Int32,
    expLevel: Int32,
    expProgress: Float32,
    gameMode: string,
    serializedStatistics: string,
    isFlying: bool,
    serializedAdvancements: string,
    serializedLocation: string)

  /** Statistics as HuskSync v1.x serialized them, keyed by Bukkit enums. */
  datatype LegacyStatistics = LegacyStatistics(
    untypedStatisticValues: map<Statistic, Int32>,
    blockStatisticValues: map<Statistic, map<Material, Int32>>,
    itemStatisticValues: map<Statistic, map<Material, Int32>>,
    entityStatisticValues: map<Statistic, map<EntityType, Int32>>)

  /** A v1.x advancement record. */
  datatype LegacyAdvancement = LegacyAdvancement(key: string, criteriaMap: map<string, Instant>)

  /** A v1.x location record. */
  datatype PlayerLocation = PlayerLocation(
    worldName: string, x: Float64, y: Float64, z: Float64, yaw: Float32, pitch: Float32)

  /** The v1.x deserializers; each may throw (`Failure`). A location may
      also decode to nothing (`None`). */
  datatype HslConverter = HslConverter(
    deserializeStatisticData: string -> Result<LegacyStatistics>,
    deserializeAdvancementData: string -> Result<seq<LegacyAdvancement>>,
    deserializePlayerLocationData: string -> Result<Option<PlayerLocation>>)

  /** The status record holds the row's twelve status values unchanged. */
  predicate CopiesStatus(row: LegacyData, s: StatusData) {
    && s.health == row.health && s.maxHealth == row.maxHealth && s.healthScale == row.healthScale
    && s.hunger == row.hunger && s.saturation == row.saturation
    && s.saturationExhaustion == row.saturationExhaustion && s.selectedItemSlot == row.selectedSlot
    && s.totalExperience == row.totalExp && s.expLevel == row.expLevel
    && s.expProgress == row.expProgress && s.gameMode == row.gameMode && s.isFlying == row.isFlying
  }

  /** The converted location: the decoded one, or the spawn default
      ("world", 0, 64, 0, yaw 90, pitch 180) when nothing was decoded; the
      environment is always "NORMAL" and the world id is a fresh one. The
      source writes the defaults as the literals `0d`, `64d`, `90f` and
      `180f`; `IntToDouble` and `IntToFloat` here only spell out those
      constants, and no conversion happens at run time. */
  function ConvertLocation(decoded: Option<PlayerLocation>, freshWorldId: Uuid): (l: LocationData)
    ensures l.worldUuid == freshWorldId && l.worldEnvironment == "NORMAL"
    ensures decoded.Some? ==>
      var d := decoded.value;
      l.worldName == d.worldName && l.x == d.x && l.y == d.y && l.z == d.z && l.yaw == d.yaw && l.pitch == d.pitch
    ensures decoded.None? ==>
      && l.worldName == "world"
      && l.x.Finite() && l.y.Finite() && l.z.Finite() && l.yaw.Finite() && l.pitch.Finite()
      && Float64Value(l.x) == 0.0 && Float64Value(l.y) == 64.0 && Float64Value(l.z) == 0.0
      && Float32Value(l.yaw) == 90.0 && Float32Value(l.pitch) == 180.0
  {
    match decoded
    case Some(d) => LocationData(d.worldName, freshWorldId, "NORMAL", d.x, d.y, d.z, d.yaw, d.pitch)
    case None =>
      IntToDoubleExact(0);
      IntToDoubleExact(64);
      IntToFloatExact(90);
      IntToFloatExact(180);
      LocationData("world", freshWorldId, "NORMAL", IntToDouble(0), IntToDouble(64), IntToDouble(0),
                   IntToFloat(90), IntToFloat(180))
  }

  /** Advancements keep their keys and criteria, in list order. */
  function ConvertAdvancements(legacy: seq<LegacyAdvancement>): (r: seq<AdvancementData>)
    ensures |r| == |legacy|
    ensures forall i :: 0 <= i < |legacy| ==>
      r[i].key == legacy[i].key && r[i].completedCriteria == legacy[i].criteriaMap
  {
    seq(|legacy|, i requires 0 <= i < |legacy| => AdvancementData(legacy[i].key, legacy[i].criteriaMap))
  }

  /** The statistics record: every map re-keyed by names; block and item
      statistics both go through the material conversion. */
  function ConvertStatistics(s: LegacyStatistics): StatisticsData {
    StatisticsData(
      Renamed(s.untypedStatisticValues),
      NestedRenamed(s.blockStatisticValues),
      NestedRenamed(s.itemStatisticValues),
      NestedRenamed(s.entityStatisticValues))
  }

  /** `LegacyData.toUserData`: decode statistics, then advancements, then the
      location (the first exception ends the conversion), and build a
      snapshot with every category set. */
  function ToUserData(row: LegacyData, converter: HslConverter, minecraftVersion: string, freshWorldId: Uuid)
    : (r: Result<UserData>)
    ensures
      var stats := converter.deserializeStatisticData(row.serializedStatistics);
      var advs := converter.deserializeAdvancementData(row.serializedAdvancements);
      var loc := converter.deserializePlayerLocationData(row.serializedLocation);
      && (r.Success? <==> stats.Success? && advs.Success? && loc.Success?)
      && (stats.Failure? ==> r == Failure(stats.error))
      && (stats.Success? && advs.Failure? ==> r == Failure(advs.error))
      && (stats.Success? && advs.Success? && loc.Failure? ==> r == Failure(loc.error))
      && (r.Success? ==>
            var d := r.value;
            && d.minecraftVersion == minecraftVersion
            && d.status.Some? && CopiesStatus(row, d.status.value)
            && d.inventory == Some(ItemData(row.serializedInventory))
            && d.enderChest == Some(ItemData(row.serializedEnderChest))
            && d.potionEffects == Some(PotionEffectData(row.serializedPotionEffects))
            && d.advancements == Some(ConvertAdvancements(advs.value))
            && d.statistics == Some(ConvertStatistics(stats.value))
            && d.location == Some(ConvertLocation(loc.value, freshWorldId)))
  {
    var stats :- converter.deserializeStatisticData(row.serializedStatistics);
    var advs :- converter.deserializeAdvancementData(row.serializedAdvancements);
    var loc :- converter.deserializePlayerLocationData(row.serializedLocation);
    Success(Builder(minecraftVersion).(
      status := Some(StatusData(row.health, row.maxHealth, row.healthScale, row.hunger, row.saturation,
                                row.saturationExhaustion, row.selectedSlot, row.totalExp, row.expLevel,
                                row.expProgress, row.gameMode, row.isFlying)),
      inventory := Some(ItemData(row.serializedInventory)),
      enderChest := Some(ItemData(row.serializedEnderChest)),
      potionEffects := Some(PotionEffectData(row.serializedPotionEffects)),
      advancements := Some(ConvertAdvancements(advs)),
      statistics := Some(ConvertStatistics(stats)),
      location := Some(ConvertLocation(loc, freshWorldId))))
  }

  /** The statistics a successful conversion stores are exactly the counts
      the converter's loops compute. */
  method ConvertStatisticsByLoops(s: LegacyStatistics) returns (data: StatisticsData)
    ensures data == ConvertStatistics(s)
  {
    var untyped := ConvertStatisticMap(s.untypedStatisticValues);
    var block := ConvertNestedStatisticMap(s.blockStatisticValues);
    var item := ConvertNestedStatisticMap(s.itemStatisticValues);
    var entity := ConvertNestedStatisticMap(s.entityStatisticValues);
    data := StatisticsData(untyped, block, item, entity);
  }

  // ---------------------------------------------------------------------
  // The batch run
  // ---------------------------------------------------------------------

  /** The converted rows, in download order; row `i` gets world id
      `freshWorldIds(i)`. */
  function Stage(rows: seq<LegacyData>, converter: HslConverter, minecraftVersion: string, freshWorldIds: nat -> Uuid)
    : (staged: seq<Staged>)
    ensures |staged| == |rows|
  {
    seq(|rows|, i requires 0 <= i < |rows| =>
      (rows[i].user, ToUserData(rows[i], converter, minecraftVersion, freshWorldIds(i))))
  }

  /** A staged row goes through: converted, and its user ensured. */
  predicate Passes(db: TargetDatabase, s: Staged) {
    s.1.Success? && db.ensureSucceeds(s.0)
  }

  /** The events of one row that goes through: ensure the user, save the
      snapshot, and log the user if the save fails. */
  function Saved(u: User, d: UserData, saveSucceeds: bool): (e: seq<Event>)
    ensures EnsuredBeforeWritten(e, LegacyMigration) && WipeDatabase !in e
    ensures Writes(e) == [(u, d)]
  {
    var e := [EnsureUser(u), SetUserData(u, d, LegacyMigration)] + (if saveSucceeds then [] else [LogFailure(u)]);
    WritesSingle(EnsureUser(u));
    WritesSingle(SetUserData(u, d, LegacyMigration));
    WritesSingle(LogFailure(u));
    WritesAppend([EnsureUser(u)], [SetUserData(u, d, LegacyMigration)]);
    assert [EnsureUser(u)] + [SetUserData(u, d, LegacyMigration)] == [EnsureUser(u), SetUserData(u, d, LegacyMigration)];
    WritesAppend([EnsureUser(u), SetUserData(u, d, LegacyMigration)], if saveSucceeds then [] else [LogFailure(u)]);
    e
  }

  /** The loop over converted rows: ensure the user, then save the snapshot;
      a failed save is only logged, while a failed conversion or `ensureUser`
      ends the run with `false`. */
  function Batch(db: TargetDatabase, staged: seq<Staged>): (r: (seq<Event>, bool))
    ensures WipeDatabase !in r.0
    ensures |Writes(r.0)| <= |staged|
    ensures r.1 ==> |Writes(r.0)| == |staged|
    decreases |staged|
  {
    if staged == [] then ([], true)
    else
      var u := staged[0].0;
      match staged[0].1
      case Failure(_) => ([], false)
      case Success(d) =>
        if !db.ensureSucceeds(u) then
          WritesSingle(EnsureUser(u));
          ([EnsureUser(u)], false)
        else
          var rest := Batch(db, staged[1..]);
          WritesAppend(Saved(u, d, db.writeSucceeds(u)), rest.0);
          (Saved(u, d, db.writeSucceeds(u)) + rest.0, rest.1)
  }

  /** Every save of the batch follows the `ensureUser` of its user, and the
      batch never wipes. */
  lemma {:induction false} BatchEnsuresBeforeSaving(db: TargetDatabase, staged: seq<Staged>)
    ensures EnsuredBeforeWritten(Batch(db, staged).0, LegacyMigration)
    ensures WipeDatabase !in Batch(db, staged).0
    decreases |staged|
  {
    if staged != [] && staged[0].1.Success? && db.ensureSucceeds(staged[0].0) {
      var u, d := staged[0].0, staged[0].1.value;
      BatchEnsuresBeforeSaving(db, staged[1..]);
      EnsuredBeforeWrittenAppend(Saved(u, d, db.writeSucceeds(u)), Batch(db, staged[1..]).0, LegacyMigration);
    } else if staged != [] && staged[0].1.Success? {
      assert EnsuredBeforeWritten([EnsureUser(staged[0].0)], LegacyMigration);
    }
  }

  /** The batch reports success exactly when every row converts and every
      user is ensured. */
  lemma {:induction false} BatchSucceedsIff(db: TargetDatabase, staged: seq<Staged>)
    ensures Batch(db, staged).1 <==> forall i :: 0 <= i < |staged| ==> Passes(db, staged[i])
    decreases |staged|
  {
    if staged != [] {
      BatchSucceedsIff(db, staged[1..]);
      if forall i :: 0 <= i < |staged| ==> Passes(db, staged[i]) {
        forall i | 0 <= i < |staged| - 1
          ensures Passes(db, staged[1..][i])
        {
          assert staged[1..][i] == staged[i + 1];
        }
      } else if Passes(db, staged[0]) {
        var i :| 0 <= i < |staged| && !Passes(db, staged[i]);
        assert staged[1..][i - 1] == staged[i];
      }
    }
  }

  /** The snapshots a batch in which every row passes must save, in order. */
  function Converted(staged: seq<Staged>): (w: seq<(User, UserData)>)
    requires forall i :: 0 <= i < |staged| ==> staged[i].1.Success?
    ensures |w| == |staged|
    ensures forall i :: 0 <= i < |staged| ==> w[i] == (staged[i].0, staged[i].1.value)
  {
    seq(|staged|, i requires 0 <= i < |staged| => (staged[i].0, staged[i].1.value))
  }

  /** A batch in which every row passes saves every row's snapshot, in order,
      under its user. */
  lemma {:induction false} BatchSavesEveryRow(db: TargetDatabase, staged: seq<Staged>)
    requires forall i :: 0 <= i < |staged| ==> staged[i].1.Success? && db.ensureSucceeds(staged[i].0)
    ensures Writes(Batch(db, staged).0) == Converted(staged)
    decreases |staged|
  {
    if staged != [] {
      var u, d := staged[0].0, staged[0].1.value;
      forall i | 0 <= i < |staged| - 1
        ensures staged[1..][i].1.Success? && db.ensureSucceeds(staged[1..][i].0)
      {
        assert staged[1..][i] == staged[i + 1];
      }
      BatchSavesEveryRow(db, staged[1..]);
      WritesAppend(Saved(u, d, db.writeSucceeds(u)), Batch(db, staged[1..]).0);
      assert Converted(staged) == [(u, d)] + Converted(staged[1..]);
    }
  }

  /** `start()`: wipe the target database, download the rows, run the batch.
      A failed wipe happens before the `try`, so the future completes
      exceptionally; a failed download resolves `false`. */
  function Start(db: TargetDatabase, download: Result<seq<LegacyData>>, converter: HslConverter,
                 minecraftVersion: string, freshWorldIds: nat -> Uuid): (r: Run)
    ensures |r.events| > 0 && r.events[0] == WipeDatabase
    ensures r.outcome == CompletedExceptionally <==> !db.wipeSucceeds
    ensures (!db.wipeSucceeds || download.Failure?) ==> r.events == [WipeDatabase] && r.outcome != Resolved(true)
  {
    if !db.wipeSucceeds then Run([WipeDatabase], CompletedExceptionally)
    else
      match download
      case Failure(_) => Run([WipeDatabase], Resolved(false))
      case Success(rows) =>
        var batch := Batch(db, Stage(rows, converter, minecraftVersion, freshWorldIds));
        Run([WipeDatabase] + batch.0, Resolved(batch.1))
  }

  /** A run wipes once, first, and saves each snapshot right after ensuring
      its user. */
  lemma StartEnsuresBeforeSaving(db: TargetDatabase, download: Result<seq<LegacyData>>, converter: HslConverter,
                                 minecraftVersion: string, freshWorldIds: nat -> Uuid)
    ensures var events := Start(db, download, converter, minecraftVersion, freshWorldIds).events;
      WipeDatabase !in events[1..] && EnsuredBeforeWritten(events, LegacyMigration)
  {
    if db.wipeSucceeds && download.Success? {
      var batch := Batch(db, Stage(download.value, converter, minecraftVersion, freshWorldIds));
      BatchEnsuresBeforeSaving(db, Stage(download.value, converter, minecraftVersion, freshWorldIds));
      EnsuredBeforeWrittenAppend([WipeDatabase], batch.0, LegacyMigration);
      assert ([WipeDatabase] + batch.0)[1..] == batch.0;
    } else {
      assert [WipeDatabase][1..] == [];
    }
  }

  /** A run resolves `true` exactly when the wipe and the download succeed,
      every row converts, and every user is ensured. */
  lemma StartSucceedsIff(db: TargetDatabase, download: Result<seq<LegacyData>>, converter: HslConverter,
                         minecraftVersion: string, freshWorldIds: nat -> Uuid)
    ensures Start(db, download, converter, minecraftVersion, freshWorldIds).outcome == Resolved(true) <==>
      db.wipeSucceeds && download.Success? &&
      forall i :: 0 <= i < |download.value| ==>
        ToUserData(download.value[i], converter, minecraftVersion, freshWorldIds(i)).Success? &&
        db.ensureSucceeds(download.value[i].user)
  {
    if db.wipeSucceeds && download.Success? {
      var rows := download.value;
      var staged := Stage(rows, converter, minecraftVersion, freshWorldIds);
      BatchSucceedsIff(db, staged);
      StagePasses(db, rows, converter, minecraftVersion, freshWorldIds);
    }
  }

  /** A staged row passes exactly when its row converts and its user is
      ensured. */
  lemma StagePasses(db: TargetDatabase, rows: seq<LegacyData>, converter: HslConverter,
                    minecraftVersion: string, freshWorldIds: nat -> Uuid)
    ensures var staged := Stage(rows, converter, minecraftVersion, freshWorldIds);
      (forall i :: 0 <= i < |rows| ==> Passes(db, staged[i])) <==>
      (forall i :: 0 <= i < |rows| ==>
         ToUserData(rows[i], converter, minecraftVersion, freshWorldIds(i)).Success? && db.ensureSucceeds(rows[i].user))
  {
    var staged := Stage(rows, converter, minecraftVersion, freshWorldIds);
    forall i | 0 <= i < |rows|
      ensures Passes(db, staged[i]) <==>
        ToUserData(rows[i], converter, minecraftVersion, freshWorldIds(i)).Success? && db.ensureSucceeds(rows[i].user)
    {
      assert staged[i] == (rows[i].user, ToUserData(rows[i], converter, minecraftVersion, freshWorldIds(i)));
    }
  }

  /** When the wipe and the download succeed and every row converts and is
      ensured, the run resolves `true` having saved every row's snapshot, in
      download order, under its user. */
  lemma SuccessfulRunWritesEveryRow(db: TargetDatabase, rows: seq<LegacyData>, converter: HslConverter,
                                     minecraftVersion: string, freshWorldIds: nat -> Uuid)
    requires db.wipeSucceeds
    requires forall i :: 0 <= i < |rows| ==>
      ToUserData(rows[i], converter, minecraftVersion, freshWorldIds(i)).Success? && db.ensureSucceeds(rows[i].user)
    ensures var r := Start(db, Success(rows), converter, minecraftVersion, freshWorldIds);
      var w := Writes(r.events);
      r.outcome == Resolved(true) && |w| == |rows| &&
      forall i :: 0 <= i < |rows| ==>
        w[i] == (rows[i].user, ToUserData(rows[i], converter, minecraftVersion, freshWorldIds(i)).value)
  {
    var staged := Stage(rows, converter, minecraftVersion, freshWorldIds);
    var batch := Batch(db, staged);
    assert Start(db, Success(rows), converter, minecraftVersion, freshWorldIds) == Run([WipeDatabase] + batch.0, Resolved(batch.1));
    StartSucceedsIff(db, Success(rows), converter, minecraftVersion, freshWorldIds);
    assert forall i :: 0 <= i < |staged| ==> staged[i].1.Success? && db.ensureSucceeds(staged[i].0) by {
      forall i | 0 <= i < |staged|
        ensures staged[i].1.Success? && db.ensureSucceeds(staged[i].0)
      {
        assert staged[i] == (rows[i].user, ToUserData(rows[i], converter, minecraftVersion, freshWorldIds(i)));
      }
    }
    BatchSavesEveryRow(db, staged);
    WritesAppend([WipeDatabase], batch.0);
    WritesSingle(WipeDatabase);
    forall i | 0 <= i < |rows|
      ensures Converted(staged)[i] == (rows[i].user, ToUserData(rows[i], converter, minecraftVersion, freshWorldIds(i)).value)
    {
      assert staged[i] == (rows[i].user, ToUserData(rows[i], converter, minecraftVersion, freshWorldIds(i)));
    }
  }

  /** A conversion that fails stops the run: nothing is done for the rows
      after it, and the run resolves `false`. */
  lemma {:induction false} BatchStopsAtFailedConversion(db: TargetDatabase, staged: seq<Staged>, k: nat)
    requires k < |staged| && staged[k].1.Failure?
    requires forall i :: 0 <= i < k ==> Passes(db, staged[i])
    ensures Batch(db, staged) == (Batch(db, staged[..k]).0, false)
    decreases k
  {
    if k > 0 {
      assert Passes(db, staged[0]);
      assert staged[1..][..k - 1] == staged[..k][1..];
      forall i | 0 <= i < k - 1
        ensures Passes(db, staged[1..][i])
      {
        assert staged[1..][i] == staged[i + 1];
      }
      BatchStopsAtFailedConversion(db, staged[1..], k - 1);
      assert staged[..k][0] == staged[0];
    }
  }

  /** At the level of `start()`: the run after a failed conversion of row `k`
      is the run over the rows before it, resolved `false`. */
  lemma StartStopsAtFailedConversion(db: TargetDatabase, rows: seq<LegacyData>, converter: HslConverter,
                                     minecraftVersion: string, freshWorldIds: nat -> Uuid, k: nat)
    requires db.wipeSucceeds && k < |rows|
    requires ToUserData(rows[k], converter, minecraftVersion, freshWorldIds(k)).Failure?
    requires forall i :: 0 <= i < k ==>
      ToUserData(rows[i], converter, minecraftVersion, freshWorldIds(i)).Success? && db.ensureSucceeds(rows[i].user)
    ensures var r := Start(db, Success(rows), converter, minecraftVersion, freshWorldIds);
      r.outcome == Resolved(false) &&
      r.events == Start(db, Success(rows[..k]), converter, minecraftVersion, freshWorldIds).events
  {
    var staged := Stage(rows, converter, minecraftVersion, freshWorldIds);
    BatchStopsAtFailedConversion(db, staged, k);
    assert staged[..k] == Stage(rows[..k], converter, minecraftVersion, freshWorldIds);
  }
}
