/** How the server settles its settings from built-in defaults, a configuration
    file and the command line, and how it writes them (src/server.cpp:105-388). */
module SettingsModel {
  import opened Common
  import opened ConfigTree
  import opened ConfigEntry

  /** The library's conversion of numbers to text and back. */
  datatype NumberText = NumberText(format: int -> string, parse: string -> Option<int>)

  datatype Settings = Settings(
    port: int, name: string, autosaveFile: string, autosaveDirectory: string, autosaveInterval: int,
    postSaveHook: string, password: string, commandDirectory: string, session: string)

  /** What the command line gives; `session` is its first file argument. */
  datatype CommandLine = CommandLine(
    port: Option<int>, name: Option<string>, autosaveFile: Option<string>, autosaveDirectory: Option<string>,
    autosaveInterval: Option<int>, postSaveHook: Option<string>, password: Option<string>,
    commandDirectory: Option<string>, session: Option<string>)

  const NO_OPTIONS := CommandLine(None, None, None, None, None, None, None, None, None)

  const DEFAULT_PORT := 6522
  const DEFAULT_NAME := "Standalone obby server"
  const DEFAULT_AUTOSAVE_FILE := "autosave.obby"

  datatype Outcome = ConversionError | Resolved(settings: Settings, sessionFromConfig: bool)

  // ----- the rule, setting by setting -----

  /** The entries under "settings"; without a configuration there are none. */
  function SettingsOf(config: Option<Kids>): Kids {
    if config.Some? && "settings" in config.value && config.value["settings"].Branch?
    then config.value["settings"].kids else map[]
  }

  function Choose(given: Option<string>, stored: string): string {
    if given.Some? && given.value != "" then given.value else stored
  }

  function ChooseNumber(given: Option<int>, stored: int): int {
    if given.Some? && given.value != 0 then given.value else stored
  }

  /** The settings of a configuration, with the defaults for what it lacks;
      `None` if one of its numbers is none. */
  function Stored(config: Option<Kids>, numbers: NumberText): Option<Settings> {
    var kids := SettingsOf(config);
    var port := NumberAt(kids, "port", DEFAULT_PORT, numbers.parse);
    var interval := NumberAt(kids, "autosave_interval", 0, numbers.parse);
    if port.None? || interval.None? then None
    else Some(Settings(
      port.value, StringAt(kids, "name", DEFAULT_NAME),
      StringAt(kids, "autosave_file", DEFAULT_AUTOSAVE_FILE), StringAt(kids, "autosave_directory", ""),
      interval.value, StringAt(kids, "post_save_hook", ""), StringAt(kids, "password", ""),
      StringAt(kids, "command_directory", ""), StringAt(kids, "session", "")))
  }

  /** Each setting is the one on the command line if that is given and not
      empty, else the one in the configuration, else the default. A number in
      the configuration that is none is an error even if it is not needed. */
  function Rule(config: Option<Kids>, given: CommandLine, numbers: NumberText): Outcome {
    match Stored(config, numbers)
    case None => ConversionError
    case Some(stored) =>
      Resolved(
        Settings(
          ChooseNumber(given.port, stored.port),
          Choose(given.name, stored.name),
          Choose(given.autosaveFile, stored.autosaveFile),
          Choose(given.autosaveDirectory, stored.autosaveDirectory),
          ChooseNumber(given.autosaveInterval, stored.autosaveInterval),
          Choose(given.postSaveHook, stored.postSaveHook),
          Choose(given.password, stored.password),
          Choose(given.commandDirectory, stored.commandDirectory),
          Choose(given.session, stored.session)),
        config.Some? && given.session.None?)
  }

  /** One setting: what the command line gives if it is not empty, else what is
      stored under its key, else the default. */
  function Settled(given: Option<string>, kids: Kids, key: string, default: string): (value: string)
    ensures given.Some? && given.value != "" ==> value == given.value
    ensures given == None || given == Some("") ==>
      value == if key in kids && kids[key].Leaf? then kids[key].data else default
  {
    Choose(given, StringAt(kids, key, default))
  }

  /** The same for a number, where zero counts as not given and what is stored is
      converted. */
  function SettledNumber(given: Option<int>, kids: Kids, key: string, default: int, parse: string -> Option<int>)
      : (value: int)
    requires NumberAt(kids, key, default, parse).Some?
    ensures given.Some? && given.value != 0 ==> value == given.value
    ensures (given == None || given == Some(0)) && key in kids && kids[key].Leaf? ==>
      Some(value) == parse(kids[key].data)
    ensures (given == None || given == Some(0)) && !(key in kids && kids[key].Leaf?) ==> value == default
  {
    ChooseNumber(given, NumberAt(kids, key, default, parse).value)
  }

  /** The rule with every key and default written out; an error exactly if a stored
      number is none. */
  lemma RuleIs(config: Option<Kids>, given: CommandLine, numbers: NumberText, outcome: Outcome)
    requires outcome == Rule(config, given, numbers)
    ensures var kids := if config.Some? && "settings" in config.value && config.value["settings"].Branch?
                        then config.value["settings"].kids else map[];
      outcome.ConversionError? <==>
        || ("port" in kids && kids["port"].Leaf? && numbers.parse(kids["port"].data).None?)
        || ("autosave_interval" in kids && kids["autosave_interval"].Leaf? &&
            numbers.parse(kids["autosave_interval"].data).None?)
    ensures var kids := if config.Some? && "settings" in config.value && config.value["settings"].Branch?
                        then config.value["settings"].kids else map[];
      outcome.Resolved? ==>
        outcome.settings == Settings(
          port := SettledNumber(given.port, kids, "port", 6522, numbers.parse),
          name := Settled(given.name, kids, "name", "Standalone obby server"),
          autosaveFile := Settled(given.autosaveFile, kids, "autosave_file", "autosave.obby"),
          autosaveDirectory := Settled(given.autosaveDirectory, kids, "autosave_directory", ""),
          autosaveInterval := SettledNumber(given.autosaveInterval, kids, "autosave_interval", 0, numbers.parse),
          postSaveHook := Settled(given.postSaveHook, kids, "post_save_hook", ""),
          password := Settled(given.password, kids, "password", ""),
          commandDirectory := Settled(given.commandDirectory, kids, "command_directory", ""),
          session := Settled(given.session, kids, "session", ""))
    ensures outcome.Resolved? ==> (outcome.sessionFromConfig <==> config.Some? && given.session.None?)
  {
  }

  // ----- the two passes -----

  /** First pass, presets (lines 109-160). */
  method Preset(entry: ParentEntry?, numbers: NumberText) returns (s: Option<Settings>)
    requires entry != null ==> entry.Valid()
    ensures s == Stored(Some(map["settings" := Branch(KidsOf(entry))]), numbers)
  {
    hide ParentEntry.Valid;
    if entry == null {
      return Some(Settings(DEFAULT_PORT, DEFAULT_NAME, DEFAULT_AUTOSAVE_FILE, "", 0, "", "", "", ""));
    }
    var port := entry.GetNumber("port", DEFAULT_PORT, numbers.parse);
    if port.None? {
      return None;
    }
    var name := entry.GetValue("name", DEFAULT_NAME);
    var folder := entry.GetValue("autosave_directory", "");
    var file := entry.GetValue("autosave_file", DEFAULT_AUTOSAVE_FILE);
    var interval := entry.GetNumber("autosave_interval", 0, numbers.parse);
    if interval.None? {
      return None;
    }
    var hook := entry.GetValue("post_save_hook", "");
    var password := entry.GetValue("password", "");
    var commandDir := entry.GetValue("command_directory", "");
    var session := entry.GetValue("session", "");
    s := Some(Settings(port.value, name, file, folder, interval.value, hook, password, commandDir, session));
  }

  /** What the option parser leaves in a variable: options that are not given
      are left alone or, in older versions of the library, reset. */
  function Parsed(given: Option<string>, before: string, resets: bool): string {
    if given.Some? then given.value else if resets then "" else before
  }

  function ParsedNumber(given: Option<int>, before: int, resets: bool): int {
    if given.Some? then given.value else if resets then 0 else before
  }

  /** The option parser and the session argument (lines 244-301). */
  function ParseOptions(s: Settings, given: CommandLine, resets: bool): Settings {
    Settings(
      ParsedNumber(given.port, s.port, resets),
      Parsed(given.name, s.name, resets),
      Parsed(given.autosaveFile, s.autosaveFile, resets),
      Parsed(given.autosaveDirectory, s.autosaveDirectory, resets),
      ParsedNumber(given.autosaveInterval, s.autosaveInterval, resets),
      Parsed(given.postSaveHook, s.postSaveHook, resets),
      Parsed(given.password, s.password, resets),
      Parsed(given.commandDirectory, s.commandDirectory, resets),
      Parsed(given.session, s.session, false))
  }

  function Filled(s: string, stored: string): string { if s == "" then stored else s }
  function FilledNumber(n: int, stored: int): int { if n == 0 then stored else n }

  function Refilled(s: Settings, stored: Settings): Settings {
    Settings(
      FilledNumber(s.port, stored.port), Filled(s.name, stored.name), Filled(s.autosaveFile, stored.autosaveFile),
      Filled(s.autosaveDirectory, stored.autosaveDirectory), FilledNumber(s.autosaveInterval, stored.autosaveInterval),
      Filled(s.postSaveHook, stored.postSaveHook), Filled(s.password, stored.password),
      Filled(s.commandDirectory, stored.commandDirectory), Filled(s.session, stored.session))
  }

  /** The parser goes by what is given, be it empty; the session is no option. */
  lemma ParseOptionsIs(s: Settings, given: CommandLine, resets: bool)
    ensures var t := ParseOptions(s, given, resets);
      && t.port == (if given.port.Some? then given.port.value else if resets then 0 else s.port)
      && t.autosaveInterval ==
           (if given.autosaveInterval.Some? then given.autosaveInterval.value
            else if resets then 0 else s.autosaveInterval)
      && t.name == (if given.name.Some? then given.name.value else if resets then "" else s.name)
      && t.autosaveFile ==
           (if given.autosaveFile.Some? then given.autosaveFile.value else if resets then "" else s.autosaveFile)
      && t.autosaveDirectory ==
           (if given.autosaveDirectory.Some? then given.autosaveDirectory.value
            else if resets then "" else s.autosaveDirectory)
      && t.postSaveHook ==
           (if given.postSaveHook.Some? then given.postSaveHook.value else if resets then "" else s.postSaveHook)
      && t.password == (if given.password.Some? then given.password.value else if resets then "" else s.password)
      && t.commandDirectory ==
           (if given.commandDirectory.Some? then given.commandDirectory.value
            else if resets then "" else s.commandDirectory)
      && t.session == (if given.session.Some? then given.session.value else s.session)
  {
  }

  /** The second pass goes by what is empty or zero, whoever left it so. */
  lemma RefilledIs(s: Settings, stored: Settings)
    ensures var t := Refilled(s, stored);
      && t.port == (if s.port == 0 then stored.port else s.port)
      && t.autosaveInterval == (if s.autosaveInterval == 0 then stored.autosaveInterval else s.autosaveInterval)
      && t.name == (if s.name == "" then stored.name else s.name)
      && t.autosaveFile == (if s.autosaveFile == "" then stored.autosaveFile else s.autosaveFile)
      && t.autosaveDirectory == (if s.autosaveDirectory == "" then stored.autosaveDirectory else s.autosaveDirectory)
      && t.postSaveHook == (if s.postSaveHook == "" then stored.postSaveHook else s.postSaveHook)
      && t.password == (if s.password == "" then stored.password else s.password)
      && t.commandDirectory == (if s.commandDirectory == "" then stored.commandDirectory else s.commandDirectory)
      && t.session == (if s.session == "" then stored.session else s.session)
  {
  }

  ghost function KidsOf(entry: ParentEntry?): Kids
    reads entry
  {
    if entry == null then map[] else entry.kids
  }

  /** `if(current.empty()) current = entry.get_value(key, default)` */
  method Refill(entry: ParentEntry?, current: string, key: string, default: string) returns (s: string)
    requires entry != null ==> entry.Valid()
    ensures s == Filled(current, StringAt(KidsOf(entry), key, default))
  {
    s := current;
    if s == "" {
      if entry != null { s := entry.GetValue(key, default); } else { s := default; }
    }
  }

  method RefillNumber(entry: ParentEntry?, current: int, key: string, default: int, numbers: NumberText)
      returns (n: int)
    requires entry != null ==> entry.Valid()
    requires NumberAt(KidsOf(entry), key, default, numbers.parse).Some?
    ensures n == FilledNumber(current, NumberAt(KidsOf(entry), key, default, numbers.parse).value)
  {
    n := current;
    if n == 0 {
      n := default;
      if entry != null {
        var number := entry.GetNumber(key, default, numbers.parse);
        n := number.value;
      }
    }
  }

  /** Second pass (lines 307-363): the same values again for what is empty. */
  method Redefault(entry: ParentEntry?, parsed: Settings, numbers: NumberText) returns (s: Settings)
    requires entry != null ==> entry.Valid()
    requires Stored(Some(map["settings" := Branch(KidsOf(entry))]), numbers).Some?
    ensures s == Refilled(parsed, Stored(Some(map["settings" := Branch(KidsOf(entry))]), numbers).value)
  {
    hide ParentEntry.Valid, Filled, FilledNumber;
    var port := RefillNumber(entry, parsed.port, "port", DEFAULT_PORT, numbers);
    var name := Refill(entry, parsed.name, "name", DEFAULT_NAME);
    var folder := Refill(entry, parsed.autosaveDirectory, "autosave_directory", "");
    var file := Refill(entry, parsed.autosaveFile, "autosave_file", DEFAULT_AUTOSAVE_FILE);
    var interval := RefillNumber(entry, parsed.autosaveInterval, "autosave_interval", 0, numbers);
    var hook := Refill(entry, parsed.postSaveHook, "post_save_hook", "");
    var password := Refill(entry, parsed.password, "password", "");
    var commandDir := Refill(entry, parsed.commandDirectory, "command_directory", "");
    var session := Refill(entry, parsed.session, "session", "");
    s := Settings(port, name, file, folder, interval, hook, password, commandDir, session);
  }

  /** The two passes and the option parser between them come to the rule,
      whether or not the parser resets what is not given. */
  method Resolve(config: ParentEntry?, given: CommandLine, resets: bool, numbers: NumberText) returns (outcome: Outcome)
    requires config != null ==> config.Valid()
    modifies if config == null then {} else config.Repr
    ensures config != null ==> config.Valid() && config.kids == Edited(old(config.kids), "settings", Index)
    ensures outcome == Rule(if config == null then None else Some(old(config.kids)), given, numbers)
    ensures var kids := if config != null && "settings" in old(config.kids) && old(config.kids)["settings"].Branch?
                        then old(config.kids)["settings"].kids else map[];
      outcome.ConversionError? <==>
        || ("port" in kids && kids["port"].Leaf? && numbers.parse(kids["port"].data).None?)
        || ("autosave_interval" in kids && kids["autosave_interval"].Leaf? &&
            numbers.parse(kids["autosave_interval"].data).None?)
    ensures var kids := if config != null && "settings" in old(config.kids) && old(config.kids)["settings"].Branch?
                        then old(config.kids)["settings"].kids else map[];
      outcome.Resolved? ==>
        outcome.settings == Settings(
          port := SettledNumber(given.port, kids, "port", 6522, numbers.parse),
          name := Settled(given.name, kids, "name", "Standalone obby server"),
          autosaveFile := Settled(given.autosaveFile, kids, "autosave_file", "autosave.obby"),
          autosaveDirectory := Settled(given.autosaveDirectory, kids, "autosave_directory", ""),
          autosaveInterval := SettledNumber(given.autosaveInterval, kids, "autosave_interval", 0, numbers.parse),
          postSaveHook := Settled(given.postSaveHook, kids, "post_save_hook", ""),
          password := Settled(given.password, kids, "password", ""),
          commandDirectory := Settled(given.commandDirectory, kids, "command_directory", ""),
          session := Settled(given.session, kids, "session", ""))
    ensures outcome.Resolved? ==> (outcome.sessionFromConfig <==> config != null && given.session.None?)
  {
    outcome := TwoPasses(config, given, resets, numbers);
    hide Rule, Settled, SettledNumber;
    RuleIs(if config == null then None else Some(old(config.kids)), given, numbers, outcome);
  }

  method TwoPasses(config: ParentEntry?, given: CommandLine, resets: bool, numbers: NumberText)
      returns (outcome: Outcome)
    requires config != null ==> config.Valid()
    modifies if config == null then {} else config.Repr
    ensures config != null ==> config.Valid() && config.kids == Edited(old(config.kids), "settings", Index)
    ensures outcome == Rule(if config == null then None else Some(old(config.kids)), given, numbers)
  {
    hide ParentEntry.Valid, Stored;
    ghost var kids := if config == null then None else Some(config.kids);
    var entry: ParentEntry? := null;
    if config != null {
      entry := config.Index("settings");
      config.OwnEntry("settings");
    }
    StoredUnderSettings(kids, KidsOf(entry), numbers);
    var preset := Preset(entry, numbers);
    if preset.None? {
      return ConversionError;
    }
    var s := ParseOptions(preset.value, given, resets);
    var sessionFromConfig := config != null && given.session.None?;
    if config != null {
      entry := config.Index("settings");
      config.OwnEntry("settings");
    }
    s := Redefault(entry, s, numbers);
    outcome := Resolved(s, sessionFromConfig);
  }

  lemma StoredUnderSettings(config: Option<Kids>, entry: Kids, numbers: NumberText)
    requires if config.Some? then Edited(config.value, "settings", Index)["settings"] == Branch(entry)
             else entry == map[]
    ensures Stored(Some(map["settings" := Branch(entry)]), numbers) == Stored(config, numbers)
  {
  }

  // ----- writing the settings and reading them again -----

  function Written(s: Settings, numbers: NumberText): Kids {
    map["settings" := Branch(map[
      "port" := Leaf(numbers.format(s.port)),
      "name" := Leaf(s.name),
      "autosave_file" := Leaf(s.autosaveFile),
      "autosave_directory" := Leaf(s.autosaveDirectory),
      "autosave_interval" := Leaf(numbers.format(s.autosaveInterval)),
      "post_save_hook" := Leaf(s.postSaveHook),
      "password" := Leaf(s.password),
      "command_directory" := Leaf(s.commandDirectory),
      "session" := Leaf(s.session)])]
  }

  /** The nine settings are written under "settings", and nothing else. */
  lemma NineAreWritten(s: Settings, numbers: NumberText)
    ensures Written(s, numbers).Keys == {"settings"} && Written(s, numbers)["settings"].Branch?
    ensures Written(s, numbers)["settings"].kids.Keys ==
      {"port", "name", "autosave_file", "autosave_directory", "autosave_interval", "post_save_hook", "password",
       "command_directory", "session"}
  {
  }

  /** `--write-configfile`: a fresh configuration with the nine settings, saved
      as the elements under its root. */
  method Write(s: Settings, numbers: NumberText) returns (nodes: seq<Node>)
    ensures SavedAs(Written(s, numbers), nodes)
  {
    hide ParentEntry.Valid, Holds, Edited;
    HoldsNothing();
    var config := new ParentEntry(ROOT_NAME);
    var _ := config.Index("settings");
    ghost var v := map[];
    v := Set(config, v, "port", numbers.format(s.port));
    v := Set(config, v, "name", s.name);
    v := Set(config, v, "autosave_file", s.autosaveFile);
    v := Set(config, v, "autosave_directory", s.autosaveDirectory);
    WriteRest(config, v, s, numbers);
    HoldsWritten(s, numbers, config.kids);
    nodes := config.Save();
  }

  method WriteRest(config: ParentEntry, ghost values: Kids, s: Settings, numbers: NumberText)
    requires config.Valid() && Holds(config.kids, values)
    modifies config.Repr
    ensures config.Valid() && Holds(config.kids,
      values["autosave_interval" := Leaf(numbers.format(s.autosaveInterval))]
            ["post_save_hook" := Leaf(s.postSaveHook)]["password" := Leaf(s.password)]
            ["command_directory" := Leaf(s.commandDirectory)]["session" := Leaf(s.session)])
  {
    hide ParentEntry.Valid, Holds;
    ghost var v := Set(config, values, "autosave_interval", numbers.format(s.autosaveInterval));
    v := Set(config, v, "post_save_hook", s.postSaveHook);
    v := Set(config, v, "password", s.password);
    v := Set(config, v, "command_directory", s.commandDirectory);
    v := Set(config, v, "session", s.session);
  }

  /** A configuration that holds these settings and nothing else. */
  ghost predicate Holds(kids: Kids, values: Kids) {
    kids == map["settings" := Branch(values)]
  }

  /** `entry.set_value(key, value)` on the "settings" of a configuration. */
  method Set(config: ParentEntry, ghost values: Kids, key: string, value: string) returns (ghost values': Kids)
    requires config.Valid() && Holds(config.kids, values)
    modifies config.Repr
    ensures config.Valid() && fresh(config.Repr - old(config.Repr))
    ensures values' == values[key := Leaf(value)] && Holds(config.kids, values')
  {
    config.EditAt(["settings"], key, SetValue(value));
    values' := values[key := Leaf(value)];
    assert ["settings"][1..] == [];
  }

  lemma HoldsWritten(s: Settings, numbers: NumberText, kids: Kids)
    requires Written(s, numbers)["settings"].Branch? && Holds(kids, Written(s, numbers)["settings"].kids)
    ensures kids == Written(s, numbers)
  {
  }

  lemma HoldsNothing()
    ensures Holds(Edited(map[], "settings", Index), map[])
  {
  }

  /** A string comes back if it is not blank, or if it is its own default. */
  predicate Survives(text: string, default: string) {
    IsBlank(text) ==> text == default
  }

  predicate AllSurvive(s: Settings, numbers: NumberText) {
    && numbers.parse(numbers.format(s.port)) == Some(s.port)
    && numbers.parse(numbers.format(s.autosaveInterval)) == Some(s.autosaveInterval)
    && Survives(s.name, DEFAULT_NAME) && Survives(s.autosaveFile, DEFAULT_AUTOSAVE_FILE)
    && Survives(s.autosaveDirectory, "") && Survives(s.postSaveHook, "") && Survives(s.password, "")
    && Survives(s.commandDirectory, "") && Survives(s.session, "")
  }

  function ReadBack(text: string, default: string): string {
    if IsBlank(text) then default else text
  }

  lemma ReadStringBack(kids: Kids, key: string, default: string)
    requires key in kids && kids[key].Leaf?
    ensures StringAt(NormalKids(kids), key, default) == ReadBack(kids[key].data, default)
    ensures ReadBack(kids[key].data, default) == kids[key].data <==> Survives(kids[key].data, default)
  {
    NormalKid(kids, key);
  }

  lemma ReadNumberBack(kids: Kids, key: string, default: int, n: int, numbers: NumberText)
    requires key in kids && kids[key] == Leaf(numbers.format(n)) && !IsBlank(numbers.format(n))
    ensures NumberAt(NormalKids(kids), key, default, numbers.parse) == numbers.parse(numbers.format(n))
  {
    NormalKid(kids, key);
  }

  /** Writing settings with `--write-configfile`, formatting, parsing and loading
      the file, and resolving with no other options gives the same settings back
      exactly when the numbers convert back and no string is blank without being
      its own default. An empty value is loaded as a parent, so that the default
      takes its place. */
  lemma WriteThenRead(s: Settings, numbers: NumberText, nodes: seq<Node>, read: Node)
    requires SavedAs(Written(s, numbers), nodes) && Reformatted(Element(ROOT_NAME, nodes), read)
    requires !IsBlank(numbers.format(s.port)) && !IsBlank(numbers.format(s.autosaveInterval))
    ensures Rule(Some(LoadKids(read.children)), NO_OPTIONS, numbers) == Resolved(s, true) <==> AllSurvive(s, numbers)
  {
    hide SavedAs, Reformatted, NormalKids, IsBlank, LoadKids, ReadBack, Survives, StringAt, NumberAt;
    SaveThenLoad(Written(s, numbers), nodes, read);
    var kids := Written(s, numbers)["settings"].kids;
    NormalSettings(s, numbers);
    ReadNumberBack(kids, "port", DEFAULT_PORT, s.port, numbers);
    ReadNumberBack(kids, "autosave_interval", 0, s.autosaveInterval, numbers);
    ReadStringBack(kids, "name", DEFAULT_NAME);
    ReadStringBack(kids, "autosave_file", DEFAULT_AUTOSAVE_FILE);
    ReadStringBack(kids, "autosave_directory", "");
    ReadStringBack(kids, "post_save_hook", "");
    ReadStringBack(kids, "password", "");
    ReadStringBack(kids, "command_directory", "");
    ReadStringBack(kids, "session", "");
  }

  lemma NormalSettings(s: Settings, numbers: NumberText)
    ensures SettingsOf(Some(NormalKids(Written(s, numbers)))) == NormalKids(Written(s, numbers)["settings"].kids)
  {
  }

  predicate NonEmptyBlank(text: string) {
    text != "" && IsBlank(text)
  }

  predicate HasBlankString(s: Settings) {
    NonEmptyBlank(s.name) || NonEmptyBlank(s.autosaveFile) || NonEmptyBlank(s.autosaveDirectory) ||
    NonEmptyBlank(s.postSaveHook) || NonEmptyBlank(s.password) || NonEmptyBlank(s.commandDirectory) ||
    NonEmptyBlank(s.session)
  }

  lemma DefaultsAreNotBlank()
    ensures !IsBlank(DEFAULT_NAME) && !IsBlank(DEFAULT_AUTOSAVE_FILE) && IsBlank("")
  {
    assert DEFAULT_NAME[0] == 'S' && DEFAULT_AUTOSAVE_FILE[0] == 'a';
  }

  /** Resolved settings are a fixpoint of writing and reading: with a loaded
      configuration or none, any command line gives settings that come back
      unless one of its strings is blank without being empty. */
  lemma ResolvedSettingsComeBack(config: Option<Kids>, given: CommandLine, numbers: NumberText,
                                 s: Settings, sessionFromConfig: bool, nodes: seq<Node>, read: Node)
    requires config.Some? ==> Solid(Branch(config.value))
    requires Rule(config, given, numbers) == Resolved(s, sessionFromConfig)
    requires !IsBlank(numbers.format(s.port)) && numbers.parse(numbers.format(s.port)) == Some(s.port)
    requires !IsBlank(numbers.format(s.autosaveInterval))
    requires numbers.parse(numbers.format(s.autosaveInterval)) == Some(s.autosaveInterval)
    requires SavedAs(Written(s, numbers), nodes) && Reformatted(Element(ROOT_NAME, nodes), read)
    ensures Rule(Some(LoadKids(read.children)), NO_OPTIONS, numbers) == Resolved(s, true) <==> !HasBlankString(s)
  {
    hide Rule, Written, SavedAs, Reformatted, IsBlank, LoadKids, Solid;
    DefaultsAreNotBlank();
    WriteThenRead(s, numbers, nodes, read);
    NamesAreNotEmpty(config, given, numbers, s, sessionFromConfig);
  }

  /** The name and the autosave file of resolved settings are never empty. */
  lemma NamesAreNotEmpty(config: Option<Kids>, given: CommandLine, numbers: NumberText,
                         s: Settings, sessionFromConfig: bool)
    requires config.Some? ==> Solid(Branch(config.value))
    requires Rule(config, given, numbers) == Resolved(s, sessionFromConfig)
    ensures s.name != "" && s.autosaveFile != ""
  {
    var kids := SettingsOf(config);
    if config.Some? && "settings" in config.value { assert Solid(config.value["settings"]); }
    forall key | key in kids && kids[key].Leaf? ensures kids[key].data != "" {
      assert Solid(kids[key]);
    }
  }
}
