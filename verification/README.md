# SteelSeries mouse wrapper and login-theme installer, modelled in Dafny

This project models two helper scripts of a Quickshell desktop configuration:

- **The mouse wrapper.** `rivalcfg_wrapper.py` is a JSON front end to the
  `rivalcfg` library for SteelSeries mice. It does three things:
  - It describes the connected mouse: its name, its `vendor_product` id, a
    connection type guessed from the name, its battery, and its capabilities
    as read from the device profile.
  - It writes sensitivity presets, the polling rate and button mappings, and
    it resets the device.
  - It converts button mappings between a JSON object (`{"Button1": "Shift"}`)
    and the library's `buttons(button1=LeftShift; layout=qwerty)` string.
- **The theme installer.** `sddm-set-theme.py` themes the "silent" SDDM login
  screen from the desktop's generated colour palette, in five steps:
  1. It checks who runs it and how.
  2. It copies the wallpaper under a fixed name that keeps its extension.
  3. It copies an optional placeholder image.
  4. It repoints the theme's `metadata.desktop` at its own configuration.
  5. It upserts a fixed table of nineteen sections of colour and background
     settings into that configuration.

The modules follow the scripts:

| file | module | what it holds |
|---|---|---|
| `wrappers.dfy` | `Wrappers` | `Option` and `Result` |
| `text.dfy` | `Text` | the Python string operations the scripts use: `strip`, `lower`, `split`/`join`, `replace`, `in`, `str(n)`, `int(s)` and `format(n, "04x")`, each on ASCII text |
| `buttons.dfy` | `ButtonMapping` | the button-mapping serializer (inside `cmd_set_buttons`) and `parse_buttons_mapping` |
| `mouse.dfy` | `MouseWrapper` | `cmd_detect`, `cmd_get_battery`, `cmd_set_sensitivity`, `cmd_set_polling_rate`, `cmd_set_buttons`, `cmd_reset`, and the parsing of the presets argument |
| `paths.dfy` | `PosixPath` | `os.path.basename` and `os.path.splitext` on POSIX |
| `inistore.dfy` | `IniStore` | a `configparser` store and the section/key upsert loop |
| `sddm_theme.dfy` | `SddmTheme` | the installer from start to end, over a `Host` value that stands for the environment, the file system and the palette |

How the library is modelled:

- The device is a `Mouse` value. Its `settings` map is the profile's settings
  table, and it offers a setter `set_X` exactly for each setting `X` listed
  there.
- A setting command returns an `Outcome`: the `{success, error}` reply plus
  the device writes it made (setter calls, `save`, `reset_settings`), in
  order.
- A run of the installer ends in one of three ways: `Exited(code)`,
  `Crashed(reason)` (an uncaught exception), or `Finished(effects)`.
  `effects` holds the files copied, the new metadata text and the new
  configuration.

Behaviour of the code that a reader might not expect, which the model keeps:

- The device name is reported exactly as the library gives it.
- Every setting command closes the device handle at the end of its `try`
  block, after success and after the "does not support" errors alike. The
  handle is not closed after an exception, and not after the `+` rejection,
  which returns from inside the `try` block. The model does not track the
  handle (see "Left out").
- `button6=dpi` is reported as a binding, although a comment in the parser
  calls `dpi` the default of `button6`. The first rule (`value != key and
  value != "disabled"`) accepts it before the `button6` rule is consulted.
  `ButtonMapping.Button6DpiKept` states the behaviour as written.
- The placeholder setting is the bare file name of the placeholder, without
  quotes. With no placeholder it is `""`: two quote characters.
- A placeholder argument that is not an existing file makes the installer fail
  when it builds the update table. By then it has already done three things:
  - copied the wallpaper;
  - copied the default configuration, if there was none;
  - rewritten the metadata file.

  The configuration itself is left untouched. The model reports this run as
  `Crashed(UnboundPlaceholder)`.

## Model

| member | source | states |
|---|---|---|
| ButtonMapping.KeyAlias | dots/.config/quickshell/ii/scripts/rivalcfg/rivalcfg_wrapper.py:232-236 | Only `Shift`, `Ctrl` and `Alt` are renamed for the library; every other action is written as given |
| ButtonMapping.DisplayAlias | dots/.config/quickshell/ii/scripts/rivalcfg/rivalcfg_wrapper.py:304-311 | Only the five library modifier names are shown under a generic name; `RightAlt` and everything else is shown as is |
| ButtonMapping.DisplayUndoesKeyAlias | dots/.config/quickshell/ii/scripts/rivalcfg/rivalcfg_wrapper.py:232-236 | Showing the library name of an action that is not itself a library modifier name gives the action back |
| ButtonMapping.EncodeBinding | dots/.config/quickshell/ii/scripts/rivalcfg/rivalcfg_wrapper.py:257-261 | For a button name without `=`, the piece's first `=` follows the lower-cased name, and the aliased action comes after it |
| ButtonMapping.EncodeAll | dots/.config/quickshell/ii/scripts/rivalcfg/rivalcfg_wrapper.py:254-260 | One `button=action` piece per binding, in input order, with the button lower-cased and the action aliased |
| ButtonMapping.Serialize | dots/.config/quickshell/ii/scripts/rivalcfg/rivalcfg_wrapper.py:262-264 | The mapping string starts with `buttons(` and ends with `)` |
| ButtonMapping.Content | dots/.config/quickshell/ii/scripts/rivalcfg/rivalcfg_wrapper.py:318 | The prefix, the content and (when the string ends with one) the closing parenthesis put back together give the string |
| ButtonMapping.DecodeEntry | dots/.config/quickshell/ii/scripts/rivalcfg/rivalcfg_wrapper.py:328-351 | A `layout` key, a `scroll` key and any non-`button` key yield nothing. A `button` key yields nothing exactly when its lower-cased action is the device default. A kept binding is named `Button` plus the key without the word `button`. Its action is verbatim when it reads `disabled` and display-aliased otherwise |
| ButtonMapping.DecodePart | dots/.config/quickshell/ii/scripts/rivalcfg/rivalcfg_wrapper.py:322-326 | A piece with no `=` after stripping assigns nothing. A piece that assigns yields a key of the form `Button…` |
| ButtonMapping.DecodeStripped | dots/.config/quickshell/ii/scripts/rivalcfg/rivalcfg_wrapper.py:323-326 | A stripped piece with no `=` assigns nothing. A piece that assigns yields a `Button…` key |
| ButtonMapping.Assign | dots/.config/quickshell/ii/scripts/rivalcfg/rivalcfg_wrapper.py:321-351 | Every button some piece assigns is a key of the result. Each key holds the action of the last piece that assigns that button (`AssignedBy`) |
| ButtonMapping.AssignedByUnique | dots/.config/quickshell/ii/scripts/rivalcfg/rivalcfg_wrapper.py:321-351 | Only one map is `AssignedBy` a given sequence of pieces, so the description of `Assign` is complete |
| ButtonMapping.AssignSkipsNothing | dots/.config/quickshell/ii/scripts/rivalcfg/rivalcfg_wrapper.py:323-330 | A piece that yields nothing (no `=`, a skipped key, a default) leaves the mapping as it was |
| ButtonMapping.DecodeParts | dots/.config/quickshell/ii/scripts/rivalcfg/rivalcfg_wrapper.py:321-351 | The result is the map `AssignedBy` the decoded pieces, in order, and every key is a `Button…` key |
| ButtonMapping.Parse | dots/.config/quickshell/ii/scripts/rivalcfg/rivalcfg_wrapper.py:313-351 | A string without the `buttons(` prefix (including the empty string) parses to the empty map. Otherwise the result is the map `AssignedBy` the `;`-separated pieces of the content: each assigned button is a key, holding the action of the last piece that assigns it. Every key is a `Button…` key |
| ButtonMapping.Survivors | dots/.config/quickshell/ii/scripts/rivalcfg/rivalcfg_wrapper.py:337-351 | A binding is reported exactly when some input binding is not a device default and shows as it: same button, action passed through the key alias and then the display table. There are never more of them than inputs |
| ButtonMapping.SurvivorsAppend | dots/.config/quickshell/ii/scripts/rivalcfg/rivalcfg_wrapper.py:321-351 | The reported bindings keep the input order: those of a concatenation are those of each half, in turn |
| ButtonMapping.SurvivorsSingle | dots/.config/quickshell/ii/scripts/rivalcfg/rivalcfg_wrapper.py:337-351 | A single binding is dropped when it is a device default, and is otherwise reported with its display-aliased action |
| ButtonMapping.DecodeCanonicalPart | dots/.config/quickshell/ii/scripts/rivalcfg/rivalcfg_wrapper.py:322-326 | A `key=value` piece with a stripped key free of `=` decodes as its lower-cased key and its value |
| ButtonMapping.DecodeButtonEntry | dots/.config/quickshell/ii/scripts/rivalcfg/rivalcfg_wrapper.py:332-351 | For `button<digits>`, the piece is dropped exactly for defaults. Otherwise it is `Button<digits>` with the verbatim or display-aliased action |
| ButtonMapping.AliasKeepsDefaults | dots/.config/quickshell/ii/scripts/rivalcfg/rivalcfg_wrapper.py:259 | Aliasing an action never turns a default into a non-default or back, and never produces `disabled` |
| ButtonMapping.EntryTrip | dots/.config/quickshell/ii/scripts/rivalcfg/rivalcfg_wrapper.py:257-260 | For a binding on a `Button<digits>` key whose action has no `;` and no outer white space: the parser reads its serialized piece back as that binding with its action display-aliased, or as nothing when the binding is a default |
| ButtonMapping.DecodeEncodeAll | dots/.config/quickshell/ii/scripts/rivalcfg/rivalcfg_wrapper.py:321-351 | For bindings on `Button<digits>` keys whose actions have no `;` and no outer white space: decoding every serialized piece in turn (later pieces win, and defaults write no piece) gives the map of the surviving bindings |
| ButtonMapping.DecodeAfterSpace | dots/.config/quickshell/ii/scripts/rivalcfg/rivalcfg_wrapper.py:322 | The space after each `;` does not change how a piece is read |
| ButtonMapping.LayoutSkipped | dots/.config/quickshell/ii/scripts/rivalcfg/rivalcfg_wrapper.py:329-330 | The `layout=qwerty` piece the serializer appends is skipped by the parser |
| ButtonMapping.SkippedKey | dots/.config/quickshell/ii/scripts/rivalcfg/rivalcfg_wrapper.py:329-330 | Any canonical piece (a stripped key without `=`, a stripped value) whose key lower-cases to `layout` yields nothing |
| ButtonMapping.PieceHasNoSemicolon | dots/.config/quickshell/ii/scripts/rivalcfg/rivalcfg_wrapper.py:260 | A serializable binding's piece contains no `;` |
| ButtonMapping.SerializedPieces | dots/.config/quickshell/ii/scripts/rivalcfg/rivalcfg_wrapper.py:318-321 | For bindings on `Button<digits>` keys whose actions have no `;` and no outer white space: splitting the serialized content at `;` gives back the pieces, each after the first preceded by one space |
| ButtonMapping.ParseSerialize | dots/.config/quickshell/ii/scripts/rivalcfg/rivalcfg_wrapper.py:254-353 | For bindings on `Button<digits>` keys whose actions have no `;` and no outer white space: parsing what the serializer writes gives the map of the non-default bindings, with their actions as the parser shows them. For each button the last binding that is not a device default wins; a button whose bindings are all defaults is absent |
| ButtonMapping.SurvivorsOfRoundTrips | dots/.config/quickshell/ii/scripts/rivalcfg/rivalcfg_wrapper.py:337-351 | Bindings that are neither defaults nor library modifier names all survive, unchanged |
| ButtonMapping.RoundTrip | dots/.config/quickshell/ii/scripts/rivalcfg/rivalcfg_wrapper.py:227-353 | For non-default bindings on `ButtonN` keys with actions free of `;`, outer spaces and library modifier names, parsing the serialized string gives back the same mapping |
| ButtonMapping.SerializeShiftExample | dots/.config/quickshell/ii/scripts/rivalcfg/rivalcfg_wrapper.py:253-264 | `{"Button1": "Shift"}` is written `buttons(button1=LeftShift; layout=qwerty)` |
| ButtonMapping.ParseShiftExample | dots/.config/quickshell/ii/scripts/rivalcfg/rivalcfg_wrapper.py:298-311 | That string reads back as `{"Button1": "Shift"}` |
| ButtonMapping.DroppedExamples | dots/.config/quickshell/ii/scripts/rivalcfg/rivalcfg_wrapper.py:329-347 | `button1=Button1`, `button7=disabled` and any `scroll…` piece are not reported |
| ButtonMapping.Button6Kept | dots/.config/quickshell/ii/scripts/rivalcfg/rivalcfg_wrapper.py:348-351 | `button6=button6` is reported, because `button6`'s default is not its own name |
| ButtonMapping.Button6DpiKept | dots/.config/quickshell/ii/scripts/rivalcfg/rivalcfg_wrapper.py:341-349 | `button6=dpi` is reported: the first rule accepts it |
| ButtonMapping.DisabledKept | dots/.config/quickshell/ii/scripts/rivalcfg/rivalcfg_wrapper.py:345-347 | `disabled` on `button2` is reported, in its original spelling |
| ButtonMapping.AliasExamples | dots/.config/quickshell/ii/scripts/rivalcfg/rivalcfg_wrapper.py:304-311 | `RightShift` is shown as `Shift`, `RightAlt` as itself |
| MouseWrapper.SlotName | dots/.config/quickshell/ii/scripts/rivalcfg/rivalcfg_wrapper.py:188 | A slot name is `sensitivity` followed by decimal digits that denote the slot number |
| MouseWrapper.SlotNamesDiffer | dots/.config/quickshell/ii/scripts/rivalcfg/rivalcfg_wrapper.py:187-188 | Different slot numbers name different settings |
| MouseWrapper.SlotWrites | dots/.config/quickshell/ii/scripts/rivalcfg/rivalcfg_wrapper.py:186-191 | Each write sets one preset to its own slot, and only for slots the profile lists. Every preset whose slot is listed is written |
| MouseWrapper.SetSensitivity | dots/.config/quickshell/ii/scripts/rivalcfg/rivalcfg_wrapper.py:167-201 | With no mouse: `No mouse connected` and no writes. With the combined setting: the whole list, then `save`. Otherwise it succeeds exactly when some preset has a slot; it then writes the slot writes and `save`, and else reports the unsupported-sensitivity error with no writes |
| MouseWrapper.SlotWritesDistinct | dots/.config/quickshell/ii/scripts/rivalcfg/rivalcfg_wrapper.py:187-191 | No slot is written twice |
| MouseWrapper.SetPollingRate | dots/.config/quickshell/ii/scripts/rivalcfg/rivalcfg_wrapper.py:204-224 | Succeeds exactly when a mouse with a polling-rate setting is found, and then writes the rate and saves. Otherwise it writes nothing and reports no mouse or the unsupported-polling-rate error |
| MouseWrapper.Reset | dots/.config/quickshell/ii/scripts/rivalcfg/rivalcfg_wrapper.py:277-294 | Succeeds exactly when a mouse is found, with `reset_settings` then `save`. Otherwise it writes nothing |
| MouseWrapper.FirstCombination | dots/.config/quickshell/ii/scripts/rivalcfg/rivalcfg_wrapper.py:245-249 | Finds the first binding whose action contains `+`, or reports that there is none |
| MouseWrapper.CombinationError | dots/.config/quickshell/ii/scripts/rivalcfg/rivalcfg_wrapper.py:248 | The message quotes the rejected action inside the fixed sentence, at a fixed place |
| MouseWrapper.CombinationErrorNamesAction | dots/.config/quickshell/ii/scripts/rivalcfg/rivalcfg_wrapper.py:248 | Different actions give different messages, so the message identifies the action |
| MouseWrapper.SetButtons | dots/.config/quickshell/ii/scripts/rivalcfg/rivalcfg_wrapper.py:227-274 | With no mouse: the no-mouse error. An action containing `+` is rejected, naming the first such action, with no writes and before the capability is checked. Success means a mouse with a button-mapping setting and no `+` anywhere; it writes the serialized mapping, then `save`. A mouse without the setting gets the unsupported-mapping error |
| MouseWrapper.ButtonsReadBack | dots/.config/quickshell/ii/scripts/rivalcfg/rivalcfg_wrapper.py:227-353 | For distinct buttons on `Button<digits>` keys whose actions have no `;` and no outer white space, the string a successful command writes parses back to the non-default bindings it was given, with actions display-aliased |
| MouseWrapper.NormalizedLevel | dots/.config/quickshell/ii/scripts/rivalcfg/rivalcfg_wrapper.py:158 | A missing or zero level reads as 100; any other level is kept |
| MouseWrapper.ReadBattery | dots/.config/quickshell/ii/scripts/rivalcfg/rivalcfg_wrapper.py:155-159 | The battery is supported exactly when there is a non-empty report. With no report it is the unsupported default at level 100. With one, the level is the reported level with a missing or zero level read as 100, and charging is reported exactly when the report says `True` |
| MouseWrapper.GetBattery | dots/.config/quickshell/ii/scripts/rivalcfg/rivalcfg_wrapper.py:140-164 | With no mouse: the defaults and `No mouse connected`. Otherwise the battery as read, with no error |
| MouseWrapper.ConnectionOf | dots/.config/quickshell/ii/scripts/rivalcfg/rivalcfg_wrapper.py:72-79 | Wireless exactly when the lower-cased name contains `wireless` or `2.4`. Bluetooth exactly when it contains `bluetooth` but neither of those. Wired otherwise. Never unknown |
| MouseWrapper.ConnectionIgnoresCase | dots/.config/quickshell/ii/scripts/rivalcfg/rivalcfg_wrapper.py:73 | The connection type does not depend on the letter case of the name |
| MouseWrapper.Pid | dots/.config/quickshell/ii/scripts/rivalcfg/rivalcfg_wrapper.py:68-70 | Splitting the pid at `_` gives exactly the two zero-padded hexadecimal ids |
| MouseWrapper.PidReadsBack | dots/.config/quickshell/ii/scripts/rivalcfg/rivalcfg_wrapper.py:68-70 | The pid splits at `_` into exactly the two hexadecimal ids. It is nine characters long when both ids fit in 16 bits |
| MouseWrapper.Min | dots/.config/quickshell/ii/scripts/rivalcfg/rivalcfg_wrapper.py:111-113 | The least preset choice (the head of the sorted list) |
| MouseWrapper.Max | dots/.config/quickshell/ii/scripts/rivalcfg/rivalcfg_wrapper.py:111-114 | The greatest preset choice (the last of the sorted list) |
| MouseWrapper.SensitivityRange | dots/.config/quickshell/ii/scripts/rivalcfg/rivalcfg_wrapper.py:96-114 | The combined setting's input range, if any. Else `sensitivity1`'s input range, or the least and greatest of its choices. Else 100 to 18000 |
| MouseWrapper.ButtonNames | dots/.config/quickshell/ii/scripts/rivalcfg/rivalcfg_wrapper.py:128-130 | Exactly the profile buttons whose lower-cased name starts with `button` |
| MouseWrapper.ButtonNamesAppend | dots/.config/quickshell/ii/scripts/rivalcfg/rivalcfg_wrapper.py:128-130 | The filter keeps the profile's order and repeats: the names kept from a concatenation are those kept from each half, in turn |
| MouseWrapper.ButtonNamesSingle | dots/.config/quickshell/ii/scripts/rivalcfg/rivalcfg_wrapper.py:128-130 | A single name is kept exactly when its lower-cased form starts with `button` |
| MouseWrapper.CapabilitiesOf | dots/.config/quickshell/ii/scripts/rivalcfg/rivalcfg_wrapper.py:91-130 | Each capability flag holds exactly when its setting is listed. The range and the polling rates come from the profile. The buttons are exactly the listed `button…` names, in the profile's order (`ButtonNames`) |
| MouseWrapper.Detect | dots/.config/quickshell/ii/scripts/rivalcfg/rivalcfg_wrapper.py:24-137 | Available exactly when a mouse is found. The udev hint holds exactly when the library is installed but finds none, and each not-found case has its own message and the blank defaults. A found mouse gets its name verbatim, its ids in hexadecimal zero-padded to four digits (`Hex4`), the pid joining them with `_`, its connection type, its battery and its capabilities |
| MouseWrapper.ParseEach | dots/.config/quickshell/ii/scripts/rivalcfg/rivalcfg_wrapper.py:473 | Succeeds exactly when every piece is an integer, and then gives those integers in order |
| MouseWrapper.Collect | dots/.config/quickshell/ii/scripts/rivalcfg/rivalcfg_wrapper.py:473 | The list exists exactly when every piece parsed, and then holds the parsed values in order |
| MouseWrapper.ParsePresets | dots/.config/quickshell/ii/scripts/rivalcfg/rivalcfg_wrapper.py:473 | One preset per comma-separated piece |
| MouseWrapper.FormatAll | dots/.config/quickshell/ii/scripts/rivalcfg/rivalcfg_wrapper.py:444 | The decimal text of each preset, in order |
| MouseWrapper.PresetsRoundTrip | dots/.config/quickshell/ii/scripts/rivalcfg/rivalcfg_wrapper.py:473 | A non-empty preset list written comma-separated parses back to itself |
| Text.Strip | dots/.config/quickshell/ii/scripts/rivalcfg/rivalcfg_wrapper.py:322-326 | The result has white space at neither end |
| Text.StripAfterSpace | dots/.config/quickshell/ii/scripts/rivalcfg/rivalcfg_wrapper.py:322 | Leading white space does not change the stripped text |
| Text.Split | dots/.config/quickshell/ii/scripts/rivalcfg/rivalcfg_wrapper.py:321 | At least one piece. No piece holds the separator. Joining the pieces with it gives the input back |
| Text.JoinEnds | dots/.config/quickshell/ii/scripts/rivalcfg/rivalcfg_wrapper.py:264 | Joining no parts gives the empty string. Otherwise the result starts with the first part and ends with the last |
| Text.SplitJoin | dots/.config/quickshell/ii/scripts/rivalcfg/rivalcfg_wrapper.py:321 | Pieces free of the separator, joined and split again, come back unchanged |
| Text.Lower | dots/.config/quickshell/ii/scripts/rivalcfg/rivalcfg_wrapper.py:325 | Each character is lower-cased in place |
| Text.LowerOfLower | dots/.config/quickshell/ii/scripts/rivalcfg/rivalcfg_wrapper.py:73 | A lower-cased string has no upper-case letter |
| Text.Contains | dots/.config/quickshell/ii/scripts/rivalcfg/rivalcfg_wrapper.py:74-76 | `p in s` holds exactly when `p` occurs at some position of `s` |
| Text.Replace | dots/.config/quickshell/ii/scripts/colors/sddm/sddm-set-theme.py:64 | A string without the pattern is left unchanged. Together with `Text.ReplaceUpTo`, which fixes what happens at the first occurrence, this determines the result for every input |
| Text.ReplaceUpTo | dots/.config/quickshell/ii/scripts/colors/sddm/sddm-set-theme.py:64 | Text before the first occurrence is copied unchanged, that occurrence becomes the replacement, and the scan resumes right after it |
| Text.ReplaceKeeps | dots/.config/quickshell/ii/scripts/colors/sddm/sddm-set-theme.py:64 | For text split as a pattern-free part, the first occurrence and the rest: the part is kept, the occurrence is replaced, and the rest is replaced in the same way |
| Text.ReplaceAt | dots/.config/quickshell/ii/scripts/colors/sddm/sddm-set-theme.py:64 | An occurrence at the front is replaced by the new text, and the scan resumes after it |
| Text.ReplaceIntroduces | dots/.config/quickshell/ii/scripts/colors/sddm/sddm-set-theme.py:64 | Text that holds the pattern holds the new text after replacing |
| Text.ReplaceLeavesNoOccurrence | dots/.config/quickshell/ii/scripts/colors/sddm/sddm-set-theme.py:64 | When the pattern cannot arise from the replacement text, none is left after replacing |
| Text.DecimalRoundTrip | dots/.config/quickshell/ii/scripts/rivalcfg/rivalcfg_wrapper.py:188 | The decimal digits of a number read back as that number |
| Text.FormatInt | dots/.config/quickshell/ii/scripts/rivalcfg/rivalcfg_wrapper.py:444 | The text of a number is its decimal digits, after a minus sign when it is negative, and the digits denote its magnitude |
| Text.ParseInt | dots/.config/quickshell/ii/scripts/rivalcfg/rivalcfg_wrapper.py:473 | A piece that parses is not blank after stripping; `ParseFormatInt` gives the values |
| Text.ParseFormatInt | dots/.config/quickshell/ii/scripts/rivalcfg/rivalcfg_wrapper.py:473 | `int(str(n)) == n` for every integer |
| Text.Hex | dots/.config/quickshell/ii/scripts/rivalcfg/rivalcfg_wrapper.py:68-69 | At least one lower-case hexadecimal digit. The first digit is `0` exactly when the number is zero |
| Text.HexRoundTrip | dots/.config/quickshell/ii/scripts/rivalcfg/rivalcfg_wrapper.py:68-69 | The hexadecimal digits of a number read back as that number |
| Text.Hex4 | dots/.config/quickshell/ii/scripts/rivalcfg/rivalcfg_wrapper.py:68-69 | `format(n, "04x")`: at least four lower-case hexadecimal digits that read back as `n`, exactly four below 0x10000, and without a leading zero when longer than four |
| PosixPath.RFind | dots/.config/quickshell/ii/scripts/colors/sddm/sddm-set-theme.py:53 | The last index of the character, or -1 when it does not occur |
| PosixPath.Basename | dots/.config/quickshell/ii/scripts/colors/sddm/sddm-set-theme.py:53 | A suffix of the path without `/`, preceded by `/` unless it is the whole path |
| PosixPath.BasenameOfJoin | dots/.config/quickshell/ii/scripts/colors/sddm/sddm-set-theme.py:53-54 | A file name placed in a directory is that file's base name |
| PosixPath.SplitExt | dots/.config/quickshell/ii/scripts/colors/sddm/sddm-set-theme.py:46 | Root and extension concatenate to the path. The extension is empty or a dot followed by neither dot nor slash |
| PosixPath.SplitExtOfName | dots/.config/quickshell/ii/scripts/colors/sddm/sddm-set-theme.py:46-47 | A slash-free stem that holds some character other than a dot, followed by an extension, splits back into path stem and extension in any directory. So does a dot-free stem with no extension |
| PosixPath.ExtExamples | dots/.config/quickshell/ii/scripts/colors/sddm/sddm-set-theme.py:46 | `.png` from `forest.png`, `.gz` from `archive.tar.gz` |
| PosixPath.NoExtExamples | dots/.config/quickshell/ii/scripts/colors/sddm/sddm-set-theme.py:46 | A leading dot (`.face`) and a dot in a directory name (`a.d/wall`) give no extension |
| IniStore.LastValue | dots/.config/quickshell/ii/scripts/colors/sddm/sddm-set-theme.py:169-170 | Some value exactly when an entry has the key, and then the value of the last such entry |
| IniStore.AssignedSpec | dots/.config/quickshell/ii/scripts/colors/sddm/sddm-set-theme.py:166-170 | The table assigns a key exactly when some update of that section lists it. The value then comes from the last such update |
| IniStore.SetAll | dots/.config/quickshell/ii/scripts/colors/sddm/sddm-set-theme.py:169-170 | After setting the entries, a key exists exactly when it existed or is listed. It holds its last listed value, or its old value when not listed |
| IniStore.Upsert | dots/.config/quickshell/ii/scripts/colors/sddm/sddm-set-theme.py:167-170 | The section exists afterwards and every other section is untouched |
| IniStore.Merge | dots/.config/quickshell/ii/scripts/colors/sddm/sddm-set-theme.py:166-170 | The sections afterwards are exactly the old ones plus those the table names |
| IniStore.UpsertGet | dots/.config/quickshell/ii/scripts/colors/sddm/sddm-set-theme.py:167-170 | A read after one section's upsert sees that section's last listed value, or the old value |
| IniStore.MergeGet | dots/.config/quickshell/ii/scripts/colors/sddm/sddm-set-theme.py:166-170 | Every key holds the value the table assigns it last, and every key it does not assign keeps its old value or stays absent |
| IniStore.MergeKeepsOtherSections | dots/.config/quickshell/ii/scripts/colors/sddm/sddm-set-theme.py:166-170 | A section the table does not name is left exactly as it was |
| IniStore.StoreExtensionality | dots/.config/quickshell/ii/scripts/colors/sddm/sddm-set-theme.py:164-165 | Two stores that agree on their sections and on every read are the same store |
| IniStore.MergeIdempotent | dots/.config/quickshell/ii/scripts/colors/sddm/sddm-set-theme.py:166-170 | Applying the table a second time changes nothing |
| IniStore.DistinctAssigned | dots/.config/quickshell/ii/scripts/colors/sddm/sddm-set-theme.py:84-161 | In a table without repeated sections or keys, each listed key is assigned its listed value |
| IniStore.MergeEntry | dots/.config/quickshell/ii/scripts/colors/sddm/sddm-set-theme.py:166-170 | In such a table, each listed entry holds after the merge |
| IniStore.MergeDistinct | dots/.config/quickshell/ii/scripts/colors/sddm/sddm-set-theme.py:166-170 | In such a table: every section exists, every entry holds, and every key the table does not list is unchanged |
| SddmTheme.RewriteMetadata | dots/.config/quickshell/ii/scripts/colors/sddm/sddm-set-theme.py:62-66 | Metadata without the default configuration line is left unchanged. Metadata with it names the new configuration afterwards. `SddmTheme.RewriteMetadataKeeps` states what the rest of the file becomes |
| SddmTheme.ConfigLinesSelfClearing | dots/.config/quickshell/ii/scripts/colors/sddm/sddm-set-theme.py:64 | The new configuration line cannot re-create the old one |
| SddmTheme.RewriteMetadataKeeps | dots/.config/quickshell/ii/scripts/colors/sddm/sddm-set-theme.py:62-66 | The rewrite keeps all text before the first reference to the default configuration. It replaces that reference with the new line and rewrites the rest the same way, so nothing else in the file changes |
| SddmTheme.RewriteMetadataIdempotent | dots/.config/quickshell/ii/scripts/colors/sddm/sddm-set-theme.py:62-66 | No reference to the default configuration is left, so a second rewrite changes nothing |
| SddmTheme.WallpaperDest | dots/.config/quickshell/ii/scripts/colors/sddm/sddm-set-theme.py:46-47 | The wallpaper goes into the theme's backgrounds directory, and for an extension without `/` its base name is `wallpaper<ext>` |
| SddmTheme.WallpaperName | dots/.config/quickshell/ii/scripts/colors/sddm/sddm-set-theme.py:47 | The new name is `wallpaper` followed by the extension. It holds no slash when the extension holds none |
| SddmTheme.WallpaperNameKeepsExtension | dots/.config/quickshell/ii/scripts/colors/sddm/sddm-set-theme.py:46-47 | In any directory, splitting the new name gives back the extension it was built from |
| SddmTheme.WallpaperCopyKeepsExtension | dots/.config/quickshell/ii/scripts/colors/sddm/sddm-set-theme.py:46-49 | The copy has the wallpaper's extension. Its file name is the `wallpaper<ext>` the configuration refers to |
| SddmTheme.PlaceholderSetting | dots/.config/quickshell/ii/scripts/colors/sddm/sddm-set-theme.py:43-85 | Absent or empty placeholder: `""`. An existing file: its base name, unquoted. Anything else: no value, because the script fails there |
| SddmTheme.ReadRoles | dots/.config/quickshell/ii/scripts/colors/sddm/sddm-set-theme.py:73-81 | The roles are read exactly when all eight required keys are present. A failure names the first missing one in reading order. Each role comes from its own key, and `text` falls back to `on_surface` |
| SddmTheme.Quote | dots/.config/quickshell/ii/scripts/colors/sddm/sddm-set-theme.py:87-157 | A quoted value is the text between two double quotes |
| SddmTheme.SourceValue | dots/.config/quickshell/ii/scripts/colors/sddm/sddm-set-theme.py:85-159 | Colours and the wallpaper name are written quoted. Fixed values and the placeholder are written as they are |
| SddmTheme.ResolveBlock | dots/.config/quickshell/ii/scripts/colors/sddm/sddm-set-theme.py:84-161 | A section keeps its name and its keys in order, each with its resolved value |
| SddmTheme.ThemeUpdates | dots/.config/quickshell/ii/scripts/colors/sddm/sddm-set-theme.py:84-161 | One section update per table section, in order |
| SddmTheme.LayoutDistinct | dots/.config/quickshell/ii/scripts/colors/sddm/sddm-set-theme.py:84-161 | Nineteen sections, no section named twice, no key twice in a section |
| SddmTheme.LayoutNonColors | dots/.config/quickshell/ii/scripts/colors/sddm/sddm-set-theme.py:84-161 | The only values that are not palette colours are the placeholder, the two backgrounds, the saturation and the tooltip switch |
| SddmTheme.ThemeUpdatesDistinct | dots/.config/quickshell/ii/scripts/colors/sddm/sddm-set-theme.py:84-161 | The resolved table repeats no section and no key |
| SddmTheme.ThemeValues | dots/.config/quickshell/ii/scripts/colors/sddm/sddm-set-theme.py:84-161 | Every table value is a quoted palette colour, the quoted wallpaper name, the placeholder, `0.2` or `false`, each at its place |
| SddmTheme.Denied | dots/.config/quickshell/ii/scripts/colors/sddm/sddm-set-theme.py:29-35 | A run not made through `sudo` is never denied, nor one by a member of `wheel` or `sudo`. A `sudo` user whose groups cannot be read is denied |
| SddmTheme.ValidInvocation | dots/.config/quickshell/ii/scripts/colors/sddm/sddm-set-theme.py:38-39 | An invocation with no argument or more than two, without the theme directory, or without the generated colours is invalid. A valid one names an existing wallpaper file |
| SddmTheme.ColorsFile | dots/.config/quickshell/ii/scripts/colors/sddm/sddm-set-theme.py:19-27 | The palette path starts with `XDG_STATE_HOME` when that is set, else with the home directory's `.local/state`. It ends with `/quickshell/user/generated/colors.json` |
| SddmTheme.PlaceholderArg | dots/.config/quickshell/ii/scripts/colors/sddm/sddm-set-theme.py:43 | There is a placeholder exactly when two arguments are given, and it is the second. In a valid invocation it is absent exactly when only the wallpaper is given |
| SddmTheme.RunScript | dots/.config/quickshell/ii/scripts/colors/sddm/sddm-set-theme.py:29-40 | Exit 0 exactly for a `sudo` user outside `wheel` and `sudo`. Exit 1 exactly for a permitted but invalid invocation |
| SddmTheme.Install | dots/.config/quickshell/ii/scripts/colors/sddm/sddm-set-theme.py:42-173 | After validation the script never exits with a code: it finishes or crashes |
| SddmTheme.RunFinishes | dots/.config/quickshell/ii/scripts/colors/sddm/sddm-set-theme.py:42-173 | A run finishes exactly when it is permitted, valid, has a configuration to start from, metadata, a full palette and a usable placeholder. It then writes the merged configuration and the rewritten metadata, and copies the wallpaper first |
| SddmTheme.ThemeEntry | dots/.config/quickshell/ii/scripts/colors/sddm/sddm-set-theme.py:166-170 | Each table entry holds in the merged configuration |
| SddmTheme.ThemeSettings | dots/.config/quickshell/ii/scripts/colors/sddm/sddm-set-theme.py:84-161 | The placeholder, both backgrounds, the saturation and the tooltip switch hold after the merge |
| SddmTheme.FinishedRun | dots/.config/quickshell/ii/scripts/colors/sddm/sddm-set-theme.py:58-173 | A finished run writes the rewritten metadata file. That file never names the default configuration, and names the new one when the old file named the default. Every table section exists and every table entry holds. Every key outside the table keeps its value from the starting configuration |
| SddmTheme.FinishedRunMetadata | dots/.config/quickshell/ii/scripts/colors/sddm/sddm-set-theme.py:62-66 | The metadata half of `FinishedRun` |
| SddmTheme.FinishedRunConfig | dots/.config/quickshell/ii/scripts/colors/sddm/sddm-set-theme.py:58-173 | The configuration half of `FinishedRun`: sections exist, entries hold, other keys are unchanged |
| SddmTheme.ThemeMerged | dots/.config/quickshell/ii/scripts/colors/sddm/sddm-set-theme.py:84-173 | Merging the theme table into any configuration creates every table section, sets every table entry to its value and keeps every other key |
| SddmTheme.FinishedRunWallpaper | dots/.config/quickshell/ii/scripts/colors/sddm/sddm-set-theme.py:46-49 | The first copy is the wallpaper, with its extension kept. Both backgrounds name the copied file, quoted |
| SddmTheme.RunIdempotent | dots/.config/quickshell/ii/scripts/colors/sddm/sddm-set-theme.py:58-173 | Running again on what a run left behind finishes with the same configuration and metadata |

## Left out

- The `rivalcfg` library is modelled only through the `Mouse` value: its
  setters, `save` and `reset_settings` become recorded writes.
  - The model does not cover exceptions the library raises, which the
    commands turn into `str(e)` error replies.
  - It does not cover closing the device handle.
  - It does not cover a failure while reading the battery, which `cmd_detect`
    ignores.
- Command-line parsing, JSON decoding and encoding, and printing the reply
  (`main`) are not modelled.
  - The presets argument is the exception: `ParsePresets` models it, with
    `None` where `int()` would raise.
  - The button mapping arrives as a `seq<Binding>`: the entries of the
    decoded JSON object in order. The parser-side lemmas
    (`ButtonMapping.ParseSerialize`) hold for any such sequence on
    `Button<digits>` keys whose actions have no `;` and no outer white
    space, repeats included. For each button the last binding that is not
    a device default wins (`ToMap(Survivors(bs))`). A button whose bindings
    are all defaults is absent, because defaults are never written.
  - For other bindings no round trip is stated, and none holds. The parser
    keeps only `Button…` keys, so a binding such as `ScrollUp=x` is written
    but not read back. A `;` in an action splits its piece, and white space
    around an action is stripped on reading.
- `MouseWrapper.SetButtons`: it requires distinct buttons, as the keys of a
  dictionary are. A JSON text that repeats a key is decoded by `json.loads`
  keeping the last value; that decoding step is not modelled.
- `cmd_get_settings`, which reads the library's saved configuration file, is
  not part of this model.
- `Text.Strip`, `Text.Lower`: these handle ASCII only. Python's Unicode white
  space and case mappings are not modelled.
- `Text.ParseInt`: it accepts an optional sign and ASCII decimal digits
  after stripping. It does not model underscores or non-ASCII digits. Its
  own contract only says that a parsed piece is not blank. Its partner
  `Text.ParseFormatInt` states the round trip.
- `MouseWrapper.Detect`:
  - the profile's choice tables are modelled as lists of their keys;
  - a missing profile or `settings` table is the same as an empty one.
- `SddmTheme.RunScript`: the file system is the `Host` value's sets of files
  and directories. The model does not cover:
  - `os.path.expanduser`: the home directory is given;
  - copying file contents and `makedirs`;
  - failures of the copies themselves;
  - a malformed colour file;
  - what a crash leaves behind.
- `IniStore.Merge` models `configparser` at the level of sections and
  key/value pairs. It does not model:
  - the file syntax;
  - option-name case folding, which the table's lower-case keys do not
    exercise;
  - the `DEFAULT` section;
  - interpolation.
