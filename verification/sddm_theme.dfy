/** The login-theme script: it copies the wallpaper (and an optional
    animated-background placeholder) into the theme, points the theme's
    metadata at the `illogical-impulse` configuration, and upserts a fixed
    table of colours and settings, drawn from the generated Material
    palette, into that configuration. The host (environment, group
    database, files and their contents) is an input; the run's effects are
    its output. */
module SddmTheme {
  import opened Wrappers
  import opened Text
  import opened PosixPath
  import opened IniStore

  const ThemeDir: string := "/usr/share/sddm/themes/silent"
  const BackgroundDir: string := ThemeDir + "/backgrounds"
  const ThemeConf: string := ThemeDir + "/configs/illogical-impulse.conf"
  const DefaultConf: string := ThemeDir + "/configs/silvia.conf"
  const MetadataFile: string := ThemeDir + "/metadata.desktop"

  // ---------------------------------------------------------------------------
  // Metadata

  const OldConfigLine: string := "ConfigFile=configs/default.conf"
  const NewConfigLine: string := "ConfigFile=configs/illogical-impulse.conf"

  /** The metadata file with every reference to the default configuration
      pointed at the `illogical-impulse` one. */
  function RewriteMetadata(content: string): (r: string)
    ensures !Contains(content, OldConfigLine) ==> r == content
    ensures Contains(content, OldConfigLine) ==> Contains(r, NewConfigLine)
  {
    ReplaceIntroduces(content, OldConfigLine, NewConfigLine);
    Replace(content, OldConfigLine, NewConfigLine)
  }

  /** The rewrite keeps the rest of the file: text before the first
      reference is copied, the reference is replaced, and the remainder is
      rewritten in the same way. */
  lemma RewriteMetadataKeeps(x: string, y: string)
    requires forall i :: 0 <= i < |x| ==> !OccursAt(x + OldConfigLine + y, OldConfigLine, i)
    ensures RewriteMetadata(x + OldConfigLine + y) == x + NewConfigLine + RewriteMetadata(y)
  {
    ReplaceKeeps(x, OldConfigLine, NewConfigLine, y);
  }

  lemma ConfigLinesSelfClearing()
    ensures SelfClearing(OldConfigLine, NewConfigLine)
  {
    assert NewConfigLine[..|OldConfigLine|][19] != OldConfigLine[19];
    assert forall i :: 1 <= i < |OldConfigLine| ==> OldConfigLine[i] != 'C';
    assert forall i :: 1 <= i < |NewConfigLine| ==> NewConfigLine[i] != 'C';
  }

  /** No reference to the default configuration survives, so a second
      rewrite changes nothing. */
  lemma RewriteMetadataIdempotent(content: string)
    ensures !Contains(RewriteMetadata(content), OldConfigLine)
    ensures RewriteMetadata(RewriteMetadata(content)) == RewriteMetadata(content)
  {
    ConfigLinesSelfClearing();
    ReplaceLeavesNoOccurrence(content, OldConfigLine, NewConfigLine);
  }

  // ---------------------------------------------------------------------------
  // Wallpaper and placeholder

  /** The name the wallpaper is copied to: `wallpaper` and the source's
      extension; a bare file name when the extension holds no slash. */
  function WallpaperName(ext: string): (n: string)
    ensures |n| == 9 + |ext| && n[..9] == "wallpaper" && n[9..] == ext
    ensures '/' !in ext ==> '/' !in n
  {
    var n := "wallpaper" + ext;
    assert forall i :: 0 <= i < 9 ==> n[i] == "wallpaper"[i];
    assert forall i :: 9 <= i < |n| ==> n[i] == ext[i - 9];
    n
  }

  /** Where the wallpaper is copied: the theme's backgrounds directory. */
  function WallpaperDest(ext: string): (d: string)
    ensures BackgroundDir + "/" <= d
    ensures '/' !in ext ==> Basename(d) == WallpaperName(ext)
  {
    if '/' !in ext then
      BasenameOfJoin(BackgroundDir, WallpaperName(ext));
      BackgroundDir + "/" + WallpaperName(ext)
    else
      BackgroundDir + "/" + WallpaperName(ext)
  }

  /** The copy keeps the wallpaper's extension, and its file name is the
      one the configuration refers to. */
  lemma WallpaperCopyKeepsExtension(wallpaper: string)
    ensures Ext(WallpaperDest(Ext(wallpaper))) == Ext(wallpaper)
    ensures Basename(WallpaperDest(Ext(wallpaper))) == WallpaperName(Ext(wallpaper))
  {
    WallpaperNameKeepsExtension(BackgroundDir, Ext(wallpaper));
  }

  /** In any directory, the wallpaper's new name splits back into the
      extension it was made from. */
  lemma WallpaperNameKeepsExtension(dir: string, ext: string)
    requires ext == "" || IsExtension(ext)
    ensures Ext(dir + "/" + WallpaperName(ext)) == ext
  {
    assert HasNonDot("wallpaper", 0, 9) by {
      assert "wallpaper"[0] != '.';
    }
    assert '/' !in "wallpaper" && '.' !in "wallpaper";
    SplitExtOfName(dir, "wallpaper", ext);
    assert dir + "/" + WallpaperName(ext) == dir + "/" + "wallpaper" + ext;
  }

  /** A placeholder argument that names an existing file, by Python's
      truthiness: `None` and the empty string do not. */
  predicate PlaceholderFileGiven(placeholder: Option<string>, files: set<string>) {
    placeholder.Some? && placeholder.value != "" && placeholder.value in files
  }

  /** The value of `animated-background-placeholder`: the placeholder's
      file name, unquoted, when it exists; `""` (two quote characters) when
      no placeholder is given; `None` when one is given but is not a file,
      where the script fails on a variable it never assigned. */
  function PlaceholderSetting(placeholder: Option<string>, files: set<string>): (r: Option<string>)
    ensures r.None? <==> placeholder.Some? && placeholder.value != "" && placeholder.value !in files
    ensures PlaceholderFileGiven(placeholder, files) ==> r == Some(Basename(placeholder.value))
    ensures placeholder.None? || placeholder.value == "" ==> r == Some("\"\"")
    ensures r.Some? ==> '/' !in r.value
  {
    if placeholder.None? || placeholder.value == "" then Some("\"\"")
    else if placeholder.value in files then Some(Basename(placeholder.value))
    else None
  }

  // ---------------------------------------------------------------------------
  // Palette

  /** The palette colours the table uses, read from the generated colours file. */
  datatype Roles = Roles(
    surface: string,
    onSurface: string,
    primary: string,
    secondary: string,
    text: string,
    outline: string,
    surfaceContainer: string,
    surfaceContainerHigh: string,
    error: string)

  /** The palette keys the script indexes directly, in the order it reads them. */
  const RequiredColors: seq<string> := [
    "surface", "on_surface", "primary_container", "secondary_container",
    "outline", "surface_container", "surface_container_high", "error"]

  /** The colours of a palette, or the first missing key (a `KeyError`). The
      text colour falls back to `on_surface`. `secondary_container` must be
      present although the table never uses it. */
  function ReadRoles(palette: map<string, string>): (r: Result<Roles, string>)
    ensures r.Ok? <==> forall i :: 0 <= i < |RequiredColors| ==> RequiredColors[i] in palette
    ensures r.Err? ==>
      exists i :: 0 <= i < |RequiredColors| && r.error == RequiredColors[i]
        && r.error !in palette && (forall j :: 0 <= j < i ==> RequiredColors[j] in palette)
    ensures r.Ok? ==>
      && "surface" in palette && "on_surface" in palette && "primary_container" in palette
      && "secondary_container" in palette && "outline" in palette && "surface_container" in palette
      && "surface_container_high" in palette && "error" in palette
      && r.value.surface == palette["surface"] && r.value.onSurface == palette["on_surface"]
      && r.value.primary == palette["primary_container"] && r.value.secondary == palette["secondary_container"]
      && r.value.outline == palette["outline"] && r.value.surfaceContainer == palette["surface_container"]
      && r.value.surfaceContainerHigh == palette["surface_container_high"] && r.value.error == palette["error"]
      && r.value.text == if "text" in palette then palette["text"] else palette["on_surface"]
  {
    assert RequiredColors[0] == "surface" && RequiredColors[1] == "on_surface";
    assert RequiredColors[2] == "primary_container" && RequiredColors[3] == "secondary_container";
    assert RequiredColors[4] == "outline" && RequiredColors[5] == "surface_container";
    assert RequiredColors[6] == "surface_container_high" && RequiredColors[7] == "error";
    if "surface" !in palette then Err("surface")
    else if "on_surface" !in palette then Err("on_surface")
    else if "primary_container" !in palette then Err("primary_container")
    else if "secondary_container" !in palette then Err("secondary_container")
    else if "outline" !in palette then Err("outline")
    else if "surface_container" !in palette then Err("surface_container")
    else if "surface_container_high" !in palette then Err("surface_container_high")
    else if "error" !in palette then Err("error")
    else
      var text := if "text" in palette then palette["text"] else palette["on_surface"];
      Ok(Roles(palette["surface"], palette["on_surface"], palette["primary_container"],
        palette["secondary_container"], text, palette["outline"], palette["surface_container"],
        palette["surface_container_high"], palette["error"]))
  }

  // ---------------------------------------------------------------------------
  // The update table

  /** The palette colours that appear in the table. */
  datatype Role = Surface | Primary | TextColor | Outline | SurfaceContainer | SurfaceContainerHigh | ErrorColor

  /** Where a table value comes from. */
  datatype Source = Color(role: Role) | Fixed(text: string) | WallpaperFile | PlaceholderFile

  datatype Item = Item(key: string, source: Source)
  datatype Block = Block(name: string, items: seq<Item>)

  /** The table of the script, section by section in its order. */
  const Layout: seq<Block> := [
    Block("General", [Item("animated-background-placeholder", PlaceholderFile)]),
    Block("LockScreen", [
      Item("background", WallpaperFile),
      Item("background-color", Color(Surface)),
      Item("saturation", Fixed("0.2"))]),
    Block("LockScreen.Clock", [Item("color", Color(TextColor))]),
    Block("LockScreen.Date", [Item("color", Color(TextColor))]),
    Block("LockScreen.Message", [Item("color", Color(TextColor))]),
    Block("LoginScreen", [
      Item("background", WallpaperFile),
      Item("background-color", Color(Surface))]),
    Block("LoginScreen.LoginArea.Avatar", [
      Item("active-border-color", Color(Primary)),
      Item("inactive-border-color", Color(Outline))]),
    Block("LoginScreen.LoginArea.Username", [Item("color", Color(TextColor))]),
    Block("LoginScreen.LoginArea.PasswordInput", [
      Item("content-color", Color(TextColor)),
      Item("background-color", Color(SurfaceContainer)),
      Item("border-color", Color(Outline))]),
    Block("LoginScreen.LoginArea.LoginButton", [
      Item("background-color", Color(Surface)),
      Item("active-background-color", Color(Primary)),
      Item("content-color", Color(TextColor)),
      Item("active-content-color", Color(TextColor)),
      Item("border-color", Color(Outline))]),
    Block("LoginScreen.LoginArea.Spinner", [Item("color", Color(TextColor))]),
    Block("LoginScreen.LoginArea.WarningMessage", [
      Item("normal-color", Color(TextColor)),
      Item("warning-color", Color(Primary)),
      Item("error-color", Color(ErrorColor))]),
    Block("LoginScreen.MenuArea.Popups", [
      Item("background-color", Color(SurfaceContainerHigh)),
      Item("active-option-background-color", Color(Primary)),
      Item("content-color", Color(TextColor)),
      Item("active-content-color", Color(TextColor)),
      Item("border-color", Color(Outline))]),
    Block("LoginScreen.MenuArea.Session", [
      Item("background-color", Color(Surface)),
      Item("content-color", Color(TextColor)),
      Item("active-content-color", Color(TextColor))]),
    Block("LoginScreen.MenuArea.Layout", [
      Item("background-color", Color(Surface)),
      Item("content-color", Color(TextColor)),
      Item("active-content-color", Color(TextColor))]),
    Block("LoginScreen.MenuArea.Keyboard", [
      Item("background-color", Color(Surface)),
      Item("content-color", Color(TextColor)),
      Item("active-content-color", Color(TextColor))]),
    Block("LoginScreen.MenuArea.Power", [
      Item("background-color", Color(Surface)),
      Item("content-color", Color(TextColor)),
      Item("active-content-color", Color(TextColor))]),
    Block("LoginScreen.VirtualKeyboard", [
      Item("background-color", Color(Surface)),
      Item("key-content-color", Color(TextColor)),
      Item("key-color", Color(SurfaceContainer)),
      Item("key-active-background-color", Color(Primary)),
      Item("selection-background-color", Color(Primary)),
      Item("selection-content-color", Color(TextColor)),
      Item("primary-color", Color(Primary)),
      Item("border-color", Color(Outline))]),
    Block("Tooltips", [Item("enable", Fixed("false"))])
  ]

  /** `"value"`: a value written inside double quotes. */
  function Quote(s: string): (q: string)
    ensures |q| == |s| + 2 && q[0] == '"' && q[|q| - 1] == '"' && q[1..|q| - 1] == s
  {
    "\"" + s + "\""
  }


  function RoleColor(roles: Roles, role: Role): string {
    match role
    case Surface => roles.surface
    case Primary => roles.primary
    case TextColor => roles.text
    case Outline => roles.outline
    case SurfaceContainer => roles.surfaceContainer
    case SurfaceContainerHigh => roles.surfaceContainerHigh
    case ErrorColor => roles.error
  }

  /** The text written for one table value. */
  function SourceValue(source: Source, roles: Roles, ext: string, placeholder: string): (v: string)
    ensures source.Color? ==> v == Quote(RoleColor(roles, source.role))
    ensures source.WallpaperFile? ==> v == Quote(WallpaperName(ext))
    ensures source.Fixed? ==> v == source.text
    ensures source.PlaceholderFile? ==> v == placeholder
  {
    match source
    case Color(role) => Quote(RoleColor(roles, role))
    case Fixed(text) => text
    case WallpaperFile => Quote(WallpaperName(ext))
    case PlaceholderFile => placeholder
  }

  function ResolveBlock(b: Block, roles: Roles, ext: string, placeholder: string): (u: SectionUpdate)
    ensures u.name == b.name && |u.entries| == |b.items|
    ensures forall j :: 0 <= j < |b.items| ==>
      u.entries[j] == Entry(b.items[j].key, SourceValue(b.items[j].source, roles, ext, placeholder))
  {
    SectionUpdate(b.name, seq(|b.items|, j requires 0 <= j < |b.items| =>
      Entry(b.items[j].key, SourceValue(b.items[j].source, roles, ext, placeholder))))
  }

  /** The `updates` dictionary for a palette, a wallpaper extension and a
      placeholder value. */
  function ThemeUpdates(roles: Roles, ext: string, placeholder: string): (us: seq<SectionUpdate>)
    ensures |us| == |Layout|
    ensures forall i :: 0 <= i < |Layout| ==> us[i] == ResolveBlock(Layout[i], roles, ext, placeholder)
  {
    seq(|Layout|, i requires 0 <= i < |Layout| => ResolveBlock(Layout[i], roles, ext, placeholder))
  }

  /** The table has 19 sections, no section twice and no key twice in a section. */
  lemma LayoutDistinct()
    ensures |Layout| == 19
    ensures forall i, l :: 0 <= i < l < |Layout| ==> Layout[i].name != Layout[l].name
    ensures forall i, j, l :: 0 <= i < |Layout| && 0 <= j < l < |Layout[i].items| ==>
      Layout[i].items[j].key != Layout[i].items[l].key
  {
    LayoutNamesDistinct();
    LayoutKeysDistinct();
  }

  lemma LayoutNamesDistinct()
    ensures |Layout| == 19
    ensures forall i, l :: 0 <= i < l < |Layout| ==> Layout[i].name != Layout[l].name
  {
  }

  lemma LayoutKeysDistinct()
    ensures forall i, j, l :: 0 <= i < |Layout| && 0 <= j < l < |Layout[i].items| ==>
      Layout[i].items[j].key != Layout[i].items[l].key
  {
  }

  /** Every value not taken from the palette: the placeholder, the two
      wallpaper references and the two literals. */
  lemma LayoutNonColors()
    ensures forall i, j :: 0 <= i < |Layout| && 0 <= j < |Layout[i].items| && !Layout[i].items[j].source.Color? ==>
      (i, j) in {(0, 0), (1, 0), (1, 2), (5, 0), (18, 0)}
    ensures Layout[0] == Block("General", [Item("animated-background-placeholder", PlaceholderFile)])
    ensures Layout[1].name == "LockScreen" && Layout[1].items[0] == Item("background", WallpaperFile)
    ensures Layout[1].items[2] == Item("saturation", Fixed("0.2"))
    ensures Layout[5].name == "LoginScreen" && Layout[5].items[0] == Item("background", WallpaperFile)
    ensures Layout[18] == Block("Tooltips", [Item("enable", Fixed("false"))])
  {
  }

  lemma ThemeUpdatesDistinct(roles: Roles, ext: string, placeholder: string)
    ensures Distinct(ThemeUpdates(roles, ext, placeholder))
  {
    LayoutDistinct();
  }

  /** Every palette colour is written quoted; the only other values are the
      quoted wallpaper name, the placeholder value, `0.2` and `false`. */
  lemma ThemeValues(roles: Roles, ext: string, placeholder: string)
    ensures var us := ThemeUpdates(roles, ext, placeholder);
      forall i, j :: 0 <= i < |us| && 0 <= j < |us[i].entries| ==>
        || (Layout[i].items[j].source.Color? && us[i].entries[j].value == Quote(RoleColor(roles, Layout[i].items[j].source.role)))
        || ((i, j) in {(1, 0), (5, 0)} && us[i].entries[j].value == Quote(WallpaperName(ext)))
        || ((i, j) == (0, 0) && us[i].entries[j].value == placeholder)
        || ((i, j) == (1, 2) && us[i].entries[j].value == "0.2")
        || ((i, j) == (18, 0) && us[i].entries[j].value == "false")
  {
    LayoutNonColors();
  }

  // ---------------------------------------------------------------------------
  // The run

  /** What the script sees of its host. A configuration file or the
      metadata file is `None` when it does not exist; `groups` lists the
      groups naming the invoking user as a member, `None` when the group
      database cannot be read. `args` are the arguments after the program
      name, `files` and `dirs` the paths that are regular files and
      directories. */
  datatype Host = Host(
    sudoUser: Option<string>,
    groups: Option<set<string>>,
    home: string,
    stateHome: Option<string>,
    args: seq<string>,
    files: set<string>,
    dirs: set<string>,
    themeConf: Option<Store>,
    defaultConf: Option<Store>,
    metadata: Option<string>,
    palette: map<string, string>)

  /** Why a run stops with an uncaught exception. */
  datatype Crash = MissingFile(path: string) | MissingColor(key: string) | UnboundPlaceholder

  /** What a completed run leaves behind: the files copied (source and
      destination, in order), the new metadata text and the new configuration. */
  datatype Effects = Effects(copies: seq<(string, string)>, metadata: string, config: Store)

  datatype Run = Exited(code: int) | Crashed(crash: Crash) | Finished(effects: Effects)

  /** Run through `sudo` by a user in neither `wheel` nor `sudo` (or whose
      groups cannot be read). */
  predicate Denied(h: Host)
    ensures h.sudoUser.None? ==> !Denied(h)
    ensures h.groups.Some? && ("wheel" in h.groups.value || "sudo" in h.groups.value) ==> !Denied(h)
    ensures h.sudoUser.Some? && h.sudoUser.value != "" && h.groups.None? ==> Denied(h)
  {
    && h.sudoUser.Some? && h.sudoUser.value != ""
    && (h.groups.None? || ("wheel" !in h.groups.value && "sudo" !in h.groups.value))
  }

  /** The generated palette, under the state directory: `XDG_STATE_HOME`
      when set, the home directory's `.local/state` otherwise. */
  function ColorsFile(h: Host): (f: string)
    ensures h.stateHome.Some? ==> h.stateHome.value <= f
    ensures h.stateHome.None? ==> h.home + "/.local/state" <= f
    ensures var tail := "/quickshell/user/generated/colors.json";
      |tail| <= |f| && f[|f| - |tail|..] == tail
  {
    var dir := h.stateHome.GetOr(h.home + "/.local/state");
    var f := dir + "/quickshell/user/generated/colors.json";
    assert f[..|dir|] == dir;
    f
  }

  /** One or two arguments, the first a file, the theme installed and the
      generated colours present. */
  predicate ValidInvocation(h: Host)
    ensures |h.args| == 0 || |h.args| > 2 ==> !ValidInvocation(h)
    ensures ThemeDir !in h.dirs || ColorsFile(h) !in h.files ==> !ValidInvocation(h)
    ensures ValidInvocation(h) ==> h.args[0] in h.files
  {
    1 <= |h.args| <= 2 && h.args[0] in h.files && ThemeDir in h.dirs && ColorsFile(h) in h.files
  }

  /** The script from start to end. */
  function RunScript(h: Host): (r: Run)
    ensures r == Exited(0) <==> Denied(h)
    ensures r == Exited(1) <==> !Denied(h) && !ValidInvocation(h)
  {
    if Denied(h) then Exited(0)
    else if !ValidInvocation(h) then Exited(1)
    else Install(h)
  }

  /** The placeholder argument: the second argument, present exactly when
      two are given, so in a valid invocation absent exactly when only the
      wallpaper is. */
  function PlaceholderArg(h: Host): (r: Option<string>)
    ensures r.Some? <==> |h.args| == 2
    ensures r.Some? ==> r.value == h.args[1]
    ensures ValidInvocation(h) ==> (r.None? <==> |h.args| == 1)
  {
    if |h.args| == 2 then Some(h.args[1]) else None
  }

  /** Everything after validation: copies, configuration, metadata, palette, merge. */
  function Install(h: Host): (r: Run)
    requires ValidInvocation(h)
    ensures !r.Exited?
  {
    var wallpaper := h.args[0];
    var placeholder := PlaceholderArg(h);
    var ext := Ext(wallpaper);
    var copies := [(wallpaper, WallpaperDest(ext))]
      + (if PlaceholderFileGiven(placeholder, h.files)
         then [(placeholder.value, BackgroundDir + "/" + Basename(placeholder.value))] else []);
    if h.themeConf.None? && h.defaultConf.None? then Crashed(MissingFile(DefaultConf))
    else
      var copies := copies + (if h.themeConf.None? then [(DefaultConf, ThemeConf)] else []);
      var base := if h.themeConf.Some? then h.themeConf.value else h.defaultConf.value;
      match h.metadata
      case None => Crashed(MissingFile(MetadataFile))
      case Some(meta) =>
        match ReadRoles(h.palette)
        case Err(key) => Crashed(MissingColor(key))
        case Ok(roles) =>
          match PlaceholderSetting(placeholder, h.files)
          case None => Crashed(UnboundPlaceholder)
          case Some(ph) => Finished(Effects(copies, RewriteMetadata(meta), Merge(base, ThemeUpdates(roles, ext, ph))))
  }

  /** A permitted, valid invocation whose files, palette and placeholder
      are all usable. */
  predicate Completes(h: Host) {
    && !Denied(h) && ValidInvocation(h)
    && (h.themeConf.Some? || h.defaultConf.Some?)
    && h.metadata.Some?
    && ReadRoles(h.palette).Ok?
    && PlaceholderSetting(PlaceholderArg(h), h.files).Some?
  }

  /** The configuration a run starts from: the theme's own, or a copy of the default. */
  function BaseConfig(h: Host): Store
    requires h.themeConf.Some? || h.defaultConf.Some?
  {
    if h.themeConf.Some? then h.themeConf.value else h.defaultConf.value
  }

  /** The table a completing run applies. */
  function TableFor(h: Host): seq<SectionUpdate>
    requires Completes(h)
  {
    ThemeUpdates(ReadRoles(h.palette).value, Ext(h.args[0]), PlaceholderSetting(PlaceholderArg(h), h.files).value)
  }

  /** A run finishes exactly when it completes, and then it merges the
      table into the starting configuration, rewrites the metadata and
      copies the wallpaper first. */
  lemma RunFinishes(h: Host)
    ensures RunScript(h).Finished? <==> Completes(h)
    ensures Completes(h) ==>
      var e := RunScript(h).effects;
      && e.config == Merge(BaseConfig(h), TableFor(h))
      && e.metadata == RewriteMetadata(h.metadata.value)
      && e.copies[0] == (h.args[0], WallpaperDest(Ext(h.args[0])))
  {
    if !Denied(h) && ValidInvocation(h) {
      assert RunScript(h) == Install(h);
    }
  }

  /** Each entry of the table holds after merging it into any configuration. */
  lemma ThemeEntry(base: Store, roles: Roles, ext: string, placeholder: string, i: nat, j: nat)
    requires i < |Layout| && j < |Layout[i].items|
    ensures Get(Merge(base, ThemeUpdates(roles, ext, placeholder)), Layout[i].name, Layout[i].items[j].key)
      == Some(SourceValue(Layout[i].items[j].source, roles, ext, placeholder))
  {
    ThemeUpdatesDistinct(roles, ext, placeholder);
    MergeEntry(base, ThemeUpdates(roles, ext, placeholder), i, j);
  }

  /** The values a merged theme table leaves in any configuration: both
      screens show the copied wallpaper, the lock screen is desaturated to
      0.2 and tooltips are off. */
  lemma ThemeSettings(base: Store, roles: Roles, ext: string, placeholder: string)
    ensures var config := Merge(base, ThemeUpdates(roles, ext, placeholder));
      && Get(config, "General", "animated-background-placeholder") == Some(placeholder)
      && Get(config, "LockScreen", "background") == Some(Quote(WallpaperName(ext)))
      && Get(config, "LoginScreen", "background") == Some(Quote(WallpaperName(ext)))
      && Get(config, "LockScreen", "saturation") == Some("0.2")
      && Get(config, "Tooltips", "enable") == Some("false")
  {
    var general, lock, login, tooltips := Layout[0], Layout[1], Layout[5], Layout[18];
    assert general.name == "General" && general.items[0] == Item("animated-background-placeholder", PlaceholderFile);
    assert lock.name == "LockScreen" && lock.items[0] == Item("background", WallpaperFile);
    assert lock.items[2] == Item("saturation", Fixed("0.2"));
    assert login.name == "LoginScreen" && login.items[0] == Item("background", WallpaperFile);
    assert tooltips.name == "Tooltips" && tooltips.items[0] == Item("enable", Fixed("false"));
    ThemeEntry(base, roles, ext, placeholder, 0, 0);
    ThemeEntry(base, roles, ext, placeholder, 1, 0);
    ThemeEntry(base, roles, ext, placeholder, 1, 2);
    ThemeEntry(base, roles, ext, placeholder, 5, 0);
    ThemeEntry(base, roles, ext, placeholder, 18, 0);
  }

  /** A finished run writes every entry of the table with its value and
      changes nothing the table does not list. */
  lemma FinishedRun(h: Host)
    requires RunScript(h).Finished?
    ensures Completes(h)
    ensures var e := RunScript(h).effects;
      var roles := ReadRoles(h.palette).value;
      var ext := Ext(h.args[0]);
      var ph := PlaceholderSetting(PlaceholderArg(h), h.files).value;
      && e.metadata == RewriteMetadata(h.metadata.value)
      && !Contains(e.metadata, OldConfigLine)
      && (Contains(h.metadata.value, OldConfigLine) ==> Contains(e.metadata, NewConfigLine))
      && (forall i :: 0 <= i < |Layout| ==> Layout[i].name in e.config)
      && (forall i, j :: 0 <= i < |Layout| && 0 <= j < |Layout[i].items| ==>
           Get(e.config, Layout[i].name, Layout[i].items[j].key)
             == Some(SourceValue(Layout[i].items[j].source, roles, ext, ph)))
      && (forall s, k :: (forall i, j :: 0 <= i < |Layout| && 0 <= j < |Layout[i].items| ==>
            !(Layout[i].name == s && Layout[i].items[j].key == k)) ==>
           Get(e.config, s, k) == Get(BaseConfig(h), s, k))
  {
    FinishedRunMetadata(h);
    FinishedRunConfig(h);
  }

  /** The configuration half of `FinishedRun`. */
  lemma FinishedRunConfig(h: Host)
    requires RunScript(h).Finished?
    ensures Completes(h)
    ensures var e := RunScript(h).effects;
      var roles := ReadRoles(h.palette).value;
      var ext := Ext(h.args[0]);
      var ph := PlaceholderSetting(PlaceholderArg(h), h.files).value;
      && (forall i :: 0 <= i < |Layout| ==> Layout[i].name in e.config)
      && (forall i, j :: 0 <= i < |Layout| && 0 <= j < |Layout[i].items| ==>
           Get(e.config, Layout[i].name, Layout[i].items[j].key)
             == Some(SourceValue(Layout[i].items[j].source, roles, ext, ph)))
      && (forall s, k :: (forall i, j :: 0 <= i < |Layout| && 0 <= j < |Layout[i].items| ==>
            !(Layout[i].name == s && Layout[i].items[j].key == k)) ==>
           Get(e.config, s, k) == Get(BaseConfig(h), s, k))
  {
    RunFinishes(h);
    ThemeMerged(BaseConfig(h), ReadRoles(h.palette).value, Ext(h.args[0]), PlaceholderSetting(PlaceholderArg(h), h.files).value);
  }

  /** Merging the theme table into any configuration creates every table
      section, sets every table entry and keeps every other key. */
  lemma ThemeMerged(base: Store, roles: Roles, ext: string, ph: string)
    ensures var config := Merge(base, ThemeUpdates(roles, ext, ph));
      && (forall i :: 0 <= i < |Layout| ==> Layout[i].name in config)
      && (forall i, j :: 0 <= i < |Layout| && 0 <= j < |Layout[i].items| ==>
           Get(config, Layout[i].name, Layout[i].items[j].key)
             == Some(SourceValue(Layout[i].items[j].source, roles, ext, ph)))
      && (forall s, k :: (forall i, j :: 0 <= i < |Layout| && 0 <= j < |Layout[i].items| ==>
            !(Layout[i].name == s && Layout[i].items[j].key == k)) ==>
           Get(config, s, k) == Get(base, s, k))
  {
    ThemeUpdatesDistinct(roles, ext, ph);
    MergeDistinct(base, ThemeUpdates(roles, ext, ph));
  }

  /** A finished run writes the rewritten metadata: it no longer names the
      default configuration, and names the new one when the default was
      named (`RewriteMetadataKeeps` says where). */
  lemma FinishedRunMetadata(h: Host)
    requires RunScript(h).Finished?
    ensures var e := RunScript(h).effects;
      && e.metadata == RewriteMetadata(h.metadata.value)
      && !Contains(e.metadata, OldConfigLine)
      && (Contains(h.metadata.value, OldConfigLine) ==> Contains(e.metadata, NewConfigLine))
  {
    RunFinishes(h);
    RewriteMetadataIdempotent(h.metadata.value);
  }

  /** In a finished run both backgrounds name the file the wallpaper was
      copied to, with the wallpaper's own extension. */
  lemma FinishedRunWallpaper(h: Host)
    requires RunScript(h).Finished?
    ensures var e := RunScript(h).effects;
      var copied := Basename(e.copies[0].1);
      && e.copies[0].0 == h.args[0]
      && Ext(e.copies[0].1) == Ext(h.args[0])
      && Get(e.config, "LockScreen", "background") == Some(Quote(copied))
      && Get(e.config, "LoginScreen", "background") == Some(Quote(copied))
  {
    RunFinishes(h);
    var ext := Ext(h.args[0]);
    ThemeSettings(BaseConfig(h), ReadRoles(h.palette).value, ext, PlaceholderSetting(PlaceholderArg(h), h.files).value);
    WallpaperCopyKeepsExtension(h.args[0]);
  }

  /** Running the script again on what it left behind gives the same
      configuration and metadata. */
  lemma RunIdempotent(h: Host)
    requires RunScript(h).Finished?
    ensures var e := RunScript(h).effects;
      var again := RunScript(h.(themeConf := Some(e.config), metadata := Some(e.metadata)));
      again.Finished? && again.effects.config == e.config && again.effects.metadata == e.metadata
  {
    RunFinishes(h);
    var e := RunScript(h).effects;
    var h2 := h.(themeConf := Some(e.config), metadata := Some(e.metadata));
    assert Completes(h2);
    RunFinishes(h2);
    assert TableFor(h2) == TableFor(h);
    MergeIdempotent(BaseConfig(h), TableFor(h));
    RewriteMetadataIdempotent(h.metadata.value);
  }
}
