/** The settings of arduino-cli with their types: the schema the configuration is used with. */
module ConfigDefaults {
  import opened Strings
  import opened ConfigTree
  import opened ConfigSchema

  const SETTINGS: seq<(Path, Type)> := [
    (["logging", "level"], StringT),
    (["logging", "format"], StringT),
    (["logging", "file"], StringT),
    (["library", "enable_unsafe_install"], BoolT),
    (["board_manager", "additional_urls"], StringsT),
    (["board_manager", "enable_unsafe_install"], BoolT),
    (["directories", "data"], StringT),
    (["directories", "downloads"], StringT),
    (["directories", "user"], StringT),
    (["directories", "builtin", "libraries"], StringT),
    (["sketch", "always_export_binaries"], BoolT),
    (["build_cache", "ttl"], StringT),
    (["build_cache", "compilations_before_purge"], UintT),
    (["build_cache", "path"], StringT),
    (["build_cache", "extra_paths"], StringsT),
    (["daemon", "port"], StringT),
    (["metrics", "enabled"], BoolT),
    (["metrics", "addr"], StringT),
    (["output", "no_color"], BoolT),
    (["updater", "enable_notification"], BoolT),
    (["network", "proxy"], StringT),
    (["network", "user_agent_ext"], StringT),
    (["network", "connection_timeout"], StringT),
    (["network", "cloud_api", "skip_board_detection_calls"], BoolT),
    (["locale"], StringT)
  ]

  /** The schema with these dotted keys. */
  function SchemaOf(settings: seq<(Path, Type)>): Schema {
    if settings == [] then map[]
    else SchemaOf(settings[1..])[Join(settings[0].0, '.') := settings[0].1]
  }

  lemma {:induction false} SchemaKeys(settings: seq<(Path, Type)>, k: string)
    ensures k in SchemaOf(settings) <==> exists i :: 0 <= i < |settings| && Join(settings[i].0, '.') == k
  {
    if settings != [] {
      SchemaKeys(settings[1..], k);
      assert forall i :: 0 <= i < |settings| - 1 ==> settings[1..][i] == settings[i + 1];
    }
  }

  ghost predicate DotFreeParts(p: Path) {
    p != [] && forall part :: part in p ==> '.' !in part
  }

  /** Keys with dot-free parts, none of which is a proper prefix of another. */
  ghost predicate Apart(settings: seq<(Path, Type)>) {
    && (forall i :: 0 <= i < |settings| ==> DotFreeParts(settings[i].0))
    && (forall i, j :: 0 <= i < |settings| && 0 <= j < |settings| ==> !(settings[i].0 < settings[j].0))
  }

  lemma ApartIsPrefixFree(settings: seq<(Path, Type)>)
    requires Apart(settings)
    ensures PrefixFree(SchemaOf(settings))
  {
    forall k, l | k in SchemaOf(settings) && l in SchemaOf(settings) ensures !(Split(k, '.') < Split(l, '.')) {
      SchemaKeys(settings, k);
      SchemaKeys(settings, l);
      var i :| 0 <= i < |settings| && Join(settings[i].0, '.') == k;
      var j :| 0 <= j < |settings| && Join(settings[j].0, '.') == l;
      SplitJoin(settings[i].0, '.');
      SplitJoin(settings[j].0, '.');
    }
  }

  /** A key of one part stands alone at the top, and a key of three parts goes through one of two
      groups that are no keys. */
  ghost predicate ShapeOk(p: Path) {
    && 1 <= |p| <= 3
    && (|p| == 1 <==> p[0] == "locale")
    && (|p| == 2 ==> p[1] != "builtin" && p[1] != "cloud_api")
    && (|p| == 3 ==> p[1] == "builtin" || p[1] == "cloud_api")
  }

  lemma ShapesApart(p: Path, q: Path)
    requires ShapeOk(p) && ShapeOk(q)
    ensures !(p < q)
  {}

  lemma SettingsShape()
    ensures forall i :: 0 <= i < |SETTINGS| ==> ShapeOk(SETTINGS[i].0)
  {}

  lemma FirstSettingsDotFree()
    ensures forall i :: 0 <= i < 13 ==> DotFreeParts(SETTINGS[i].0)
  {}

  lemma LastSettingsDotFree()
    ensures forall i :: 13 <= i < |SETTINGS| ==> DotFreeParts(SETTINGS[i].0)
  {}

  lemma SettingsApart()
    ensures Apart(SETTINGS)
  {
    SettingsShape();
    FirstSettingsDotFree();
    LastSettingsDotFree();
    forall i, j | 0 <= i < |SETTINGS| && 0 <= j < |SETTINGS| ensures !(SETTINGS[i].0 < SETTINGS[j].0) {
      ShapesApart(SETTINGS[i].0, SETTINGS[j].0);
    }
  }

  /** The settings of arduino-cli can be read with their typed getters in every configuration that
      sets, deletes and merges can lead to. */
  lemma SettingsNeverPanic()
    ensures PrefixFree(SchemaOf(SETTINGS))
    ensures forall tr, ops, i :: Run(SchemaOf(SETTINGS), tr, ops) && 0 <= i < |tr| ==> GettersSafe(SchemaOf(SETTINGS), tr[i])
  {
    SettingsApart();
    ApartIsPrefixFree(SETTINGS);
    SchemaKeys(SETTINGS, Join(SETTINGS[0].0, '.'));
    GettersNeverPanicIff(SchemaOf(SETTINGS));
  }
}
