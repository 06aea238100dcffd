/** The device commands of the mouse wrapper: `detect`, `battery`,
    `sensitivity`, `polling-rate`, `buttons` and `reset`. The mouse the
    device library finds is an abstract record: its name, its ids, its
    battery report and the settings its profile lists. Every setter the
    library would call becomes an entry in a log of writes, so a command's
    effect on the device is the log it returns. */
module MouseWrapper {
  import opened Wrappers
  import opened Text
  import opened ButtonMapping

  /** What the device profile lists about one setting: an input range, a
      set of choices (their keys, in the profile's order) and, for the
      button-mapping setting, the names of the buttons. */
  datatype SettingInfo = SettingInfo(
    inputRange: Option<(int, int)>,
    choices: Option<seq<int>>,
    buttons: Option<seq<string>>)

  /** A non-empty battery report; a missing or empty report is `None` in
      `Mouse.battery`. A key that is absent or holds `None` is `None` here. */
  datatype BatteryReport = BatteryReport(level: Option<int>, charging: Option<bool>)

  /** The first mouse the library finds. `settings` is the profile's
      `settings` table, empty when the profile has none; the library
      offers a setter `set_X` exactly for the settings `X` listed there. */
  datatype Mouse = Mouse(
    name: string,
    vendorId: nat,
    productId: nat,
    battery: Option<BatteryReport>,
    settings: map<string, SettingInfo>)

  /** The outcome of looking for a mouse: the library is not installed,
      it is installed but finds no mouse (or fails while looking), or it
      finds one. */
  datatype Lookup = NotInstalled | NotDetected | Found(mouse: Mouse)

  datatype Value = Number(n: int) | Numbers(ns: seq<int>) | Literal(s: string)

  /** One call that changes the device: a setter, `save` or `reset_settings`. */
  datatype Write = Set(setting: string, value: Value) | Save | ResetSettings

  /** The `{success, error}` reply of a setting command with the writes it made. */
  datatype Outcome = Outcome(success: bool, error: string, writes: seq<Write>)

  const NoMouse: string := "No mouse connected"
  const NoSensitivity: string := "Device does not support sensitivity adjustment"
  const NoPollingRate: string := "Device does not support polling rate adjustment"
  const NoButtonMapping: string := "Device does not support button mapping"
  const NotInstalledError: string := "rivalcfg not installed.\nPlease install it with: pip install rivalcfg"
  const NotDetectedError: string :=
    "No SteelSeries mouse detected.\nMake sure your mouse is connected and udev rules are installed."

  // ---------------------------------------------------------------------------
  // sensitivity

  /** The name of the `i`-th sensitivity preset slot of older mice. */
  function SlotName(i: nat): (name: string)
    ensures |name| > 11 && name[..11] == "sensitivity"
    ensures AllDigits(name[11..]) && DecimalValue(name[11..]) == i
  {
    DecimalRoundTrip(i);
    assert ("sensitivity" + Decimal(i))[11..] == Decimal(i);
    "sensitivity" + Decimal(i)
  }

  lemma SlotNamesDiffer(i: nat, j: nat)
    requires i != j
    ensures SlotName(i) != SlotName(j)
  {
  }

  /** The profile lists the slot of the preset at position `k` (from 0). */
  predicate HasSlot(slots: set<string>, k: nat) {
    SlotName(k + 1) in slots
  }

  /** The write of the preset at position `k` to its own slot. */
  function SlotWrite(presets: seq<int>, k: nat): Write
    requires k < |presets|
  {
    Set(SlotName(k + 1), Number(presets[k]))
  }

  /** The preset writes of the slot fallback: the preset at position `k`
      goes to `sensitivity{k+1}` exactly when the profile lists that slot,
      in preset order. */
  function SlotWrites(presets: seq<int>, slots: set<string>): (ws: seq<Write>)
    ensures |ws| <= |presets|
    ensures forall w :: w in ws ==>
      exists k :: 0 <= k < |presets| && HasSlot(slots, k) && w == SlotWrite(presets, k)
    ensures forall k :: 0 <= k < |presets| && HasSlot(slots, k) ==> SlotWrite(presets, k) in ws
    decreases |presets|
  {
    if |presets| == 0 then []
    else
      var n := |presets|;
      var earlier := SlotWrites(presets[..n - 1], slots);
      SlotWritesStep(presets, slots, earlier);
      if HasSlot(slots, n - 1) then earlier + [SlotWrite(presets, n - 1)] else earlier
  }

  /** One more preset adds its own write, if its slot is listed, to the
      writes of the presets before it. */
  lemma SlotWritesStep(presets: seq<int>, slots: set<string>, earlier: seq<Write>)
    requires |presets| > 0
    requires forall w :: w in earlier ==>
      exists k :: 0 <= k < |presets| - 1 && HasSlot(slots, k) && w == SlotWrite(presets[..|presets| - 1], k)
    requires forall k :: 0 <= k < |presets| - 1 && HasSlot(slots, k) ==> SlotWrite(presets[..|presets| - 1], k) in earlier
    ensures var n := |presets|;
      var ws := if HasSlot(slots, n - 1) then earlier + [SlotWrite(presets, n - 1)] else earlier;
      && (forall w :: w in ws ==> exists k :: 0 <= k < n && HasSlot(slots, k) && w == SlotWrite(presets, k))
      && (forall k :: 0 <= k < n && HasSlot(slots, k) ==> SlotWrite(presets, k) in ws)
  {
    var n := |presets|;
    assert forall k :: 0 <= k < n - 1 ==> SlotWrite(presets[..n - 1], k) == SlotWrite(presets, k);
  }

  /** Some preset has a slot in the profile. */
  predicate AnySlot(presets: seq<int>, slots: set<string>) {
    exists k :: 0 <= k < |presets| && HasSlot(slots, k)
  }

  /** `cmd_set_sensitivity`. A mouse with the combined `sensitivity` setting
      gets the whole list and one `save`. Otherwise each preset goes to its
      own slot when the profile has it, and `save` follows only if some
      slot was written. */
  method SetSensitivity(lookup: Lookup, presets: seq<int>) returns (out: Outcome)
    ensures !lookup.Found? ==> out == Outcome(false, NoMouse, [])
    ensures lookup.Found? && "sensitivity" in lookup.mouse.settings ==>
      out == Outcome(true, "", [Set("sensitivity", Numbers(presets)), Save])
    ensures lookup.Found? && "sensitivity" !in lookup.mouse.settings ==>
      var slots := lookup.mouse.settings.Keys;
      && (out.success <==> AnySlot(presets, slots))
      && (out.success ==> out.error == "" && out.writes == SlotWrites(presets, slots) + [Save])
      && (!out.success ==> out.error == NoSensitivity && out.writes == [])
  {
    if !lookup.Found? {
      return Outcome(false, NoMouse, []);
    }
    var settings := lookup.mouse.settings;
    if "sensitivity" in settings {
      return Outcome(true, "", [Set("sensitivity", Numbers(presets)), Save]);
    }
    var writes: seq<Write> := [];
    var anySet := false;
    var i := 0;
    while i < |presets|
      invariant 0 <= i <= |presets|
      invariant writes == SlotWrites(presets[..i], settings.Keys)
      invariant anySet <==> AnySlot(presets[..i], settings.Keys)
      invariant anySet <==> |writes| > 0
    {
      var name := SlotName(i + 1);
      assert presets[..i + 1][..i] == presets[..i];
      assert HasSlot(settings.Keys, i) <==> name in settings;
      if name in settings {
        writes := writes + [Set(name, Number(presets[i]))];
        anySet := true;
      }
      i := i + 1;
    }
    assert presets[..i] == presets;
    if anySet {
      out := Outcome(true, "", writes + [Save]);
    } else {
      out := Outcome(false, NoSensitivity, []);
    }
  }

  /** Every slot written for the earlier presets differs from the slot of
      the last one. */
  lemma EarlierSlotsDiffer(presets: seq<int>, slots: set<string>)
    requires |presets| > 0
    ensures forall w :: w in SlotWrites(presets[..|presets| - 1], slots) ==>
      w.Set? && w.setting != SlotName(|presets|)
  {
    var n := |presets|;
    forall w | w in SlotWrites(presets[..n - 1], slots)
      ensures w.Set? && w.setting != SlotName(n)
    {
      var k :| 0 <= k < n - 1 && HasSlot(slots, k) && w == SlotWrite(presets[..n - 1], k);
      SlotNamesDiffer(k + 1, n);
    }
  }

  /** Every write sets a setting, and no setting is set twice. */
  predicate DistinctSettings(ws: seq<Write>) {
    forall a, b :: 0 <= a < b < |ws| ==> ws[a].Set? && ws[b].Set? && ws[a].setting != ws[b].setting
  }

  lemma AppendDistinct(earlier: seq<Write>, last: Write)
    requires DistinctSettings(earlier) && last.Set?
    requires forall w :: w in earlier ==> w.Set? && w.setting != last.setting
    ensures DistinctSettings(earlier + [last])
  {
    var ws := earlier + [last];
    forall a, b | 0 <= a < b < |ws|
      ensures ws[a].Set? && ws[b].Set? && ws[a].setting != ws[b].setting
    {
      assert ws[a] == earlier[a] && earlier[a] in earlier;
      if b < |earlier| {
        assert ws[b] == earlier[b];
      }
    }
  }

  /** No slot is written twice: the slots of distinct presets differ. */
  lemma {:induction false} SlotWritesDistinct(presets: seq<int>, slots: set<string>)
    ensures DistinctSettings(SlotWrites(presets, slots))
    decreases |presets|
  {
    if |presets| > 0 {
      var n := |presets|;
      SlotWritesDistinct(presets[..n - 1], slots);
      EarlierSlotsDiffer(presets, slots);
      if HasSlot(slots, n - 1) {
        AppendDistinct(SlotWrites(presets[..n - 1], slots), SlotWrite(presets, n - 1));
      }
    }
  }

  // ---------------------------------------------------------------------------
  // polling-rate, reset

  /** `cmd_set_polling_rate`: the rate and one `save` when the profile has
      the setting. */
  function SetPollingRate(lookup: Lookup, rate: int): (out: Outcome)
    ensures out.success <==> lookup.Found? && "polling_rate" in lookup.mouse.settings
    ensures out.success ==> out.error == "" && out.writes == [Set("polling_rate", Number(rate)), Save]
    ensures !out.success ==> out.writes == []
    ensures !lookup.Found? ==> out.error == NoMouse
    ensures lookup.Found? && !out.success ==> out.error == NoPollingRate
  {
    if !lookup.Found? then Outcome(false, NoMouse, [])
    else if "polling_rate" in lookup.mouse.settings then
      Outcome(true, "", [Set("polling_rate", Number(rate)), Save])
    else Outcome(false, NoPollingRate, [])
  }

  /** `cmd_reset`: any mouse is reset to factory settings and saved. */
  function Reset(lookup: Lookup): (out: Outcome)
    ensures out.success <==> lookup.Found?
    ensures out.success ==> out.writes == [ResetSettings, Save] && out.error == ""
    ensures !out.success ==> out.writes == [] && out.error == NoMouse
  {
    if lookup.Found? then Outcome(true, "", [ResetSettings, Save]) else Outcome(false, NoMouse, [])
  }

  // ---------------------------------------------------------------------------
  // buttons

  /** The error for an action that names a key combination: the action,
      quoted, inside a fixed sentence. */
  function CombinationError(action: string): (e: string)
    ensures |e| == |action| + 85
    ensures e[..23] == "Key combinations like '" && e[23..23 + |action|] == action
    ensures e[23 + |action|..] == "' are not supported by rivalcfg. Only single keys are allowed."
  {
    "Key combinations like '" + action + "' are not supported by rivalcfg. Only single keys are allowed."
  }

  /** The message names the rejected action: different actions give
      different messages. */
  lemma CombinationErrorNamesAction(a: string, b: string)
    ensures CombinationError(a) == CombinationError(b) ==> a == b
  {
  }

  /** The position of the first binding whose action contains `+`. */
  function FirstCombination(bs: seq<Binding>): (r: Option<nat>)
    ensures r.None? <==> forall i :: 0 <= i < |bs| ==> '+' !in bs[i].action
    ensures r.Some? ==>
      && r.value < |bs| && '+' in bs[r.value].action
      && forall i :: 0 <= i < r.value ==> '+' !in bs[i].action
    decreases |bs|
  {
    if |bs| == 0 then None
    else if '+' in bs[0].action then Some(0)
    else match FirstCombination(bs[1..])
      case None => None
      case Some(j) => Some(j + 1)
  }

  /** The entries of a decoded JSON object: no button appears twice. */
  predicate DistinctButtons(bs: seq<Binding>) {
    forall i, j :: 0 <= i < j < |bs| ==> bs[i].button != bs[j].button
  }

  /** `cmd_set_buttons`. Every action is checked for `+` before anything is
      written; then, if the profile has a button mapping, the serialized
      mapping is set and saved. */
  function SetButtons(lookup: Lookup, bs: seq<Binding>): (out: Outcome)
    requires DistinctButtons(bs)
    ensures !lookup.Found? ==> out == Outcome(false, NoMouse, [])
    ensures lookup.Found? && (exists i :: 0 <= i < |bs| && '+' in bs[i].action) ==>
      && !out.success && out.writes == []
      && exists i :: 0 <= i < |bs| && '+' in bs[i].action && out.error == CombinationError(bs[i].action)
           && forall j :: 0 <= j < i ==> '+' !in bs[j].action
    ensures out.success <==>
      && lookup.Found? && "buttons_mapping" in lookup.mouse.settings
      && forall i :: 0 <= i < |bs| ==> '+' !in bs[i].action
    ensures out.success ==> out.error == "" && out.writes == [Set("buttons_mapping", Literal(Serialize(bs))), Save]
    ensures lookup.Found? && !out.success && (forall i :: 0 <= i < |bs| ==> '+' !in bs[i].action) ==>
      out == Outcome(false, NoButtonMapping, [])
  {
    if !lookup.Found? then Outcome(false, NoMouse, [])
    else match FirstCombination(bs)
      case Some(i) => Outcome(false, CombinationError(bs[i].action), [])
      case None =>
        if "buttons_mapping" in lookup.mouse.settings then
          Outcome(true, "", [Set("buttons_mapping", Literal(Serialize(bs))), Save])
        else Outcome(false, NoButtonMapping, [])
  }

  /** What a successful `buttons` command writes reads back, through the
      parser, as the bindings that are not device defaults. */
  lemma ButtonsReadBack(lookup: Lookup, bs: seq<Binding>)
    requires DistinctButtons(bs)
    requires forall i :: 0 <= i < |bs| ==> Serializable(bs[i])
    requires SetButtons(lookup, bs).success
    ensures var w := SetButtons(lookup, bs).writes[0];
      w.setting == "buttons_mapping" && w.value.Literal? && Parse(w.value.s) == ToMap(Survivors(bs))
  {
    ParseSerialize(bs);
  }

  // ---------------------------------------------------------------------------
  // battery

  /** `level or 100`: a missing level and a level of 0 both read as 100. */
  function NormalizedLevel(level: Option<int>): (r: int)
    ensures r != 0
    ensures level.Some? && level.value != 0 ==> r == level.value
    ensures level.None? || level.value == 0 ==> r == 100
  {
    match level
    case Some(v) => if v != 0 then v else 100
    case None => 100
  }

  /** The `battery` block of a reply. */
  datatype Battery = Battery(supported: bool, level: int, charging: bool)

  const NoBattery: Battery := Battery(false, 100, false)

  /** A non-empty battery report makes the battery supported, with its
      level normalized and charging false unless reported true. */
  function ReadBattery(report: Option<BatteryReport>): (b: Battery)
    ensures b.supported <==> report.Some?
    ensures b.level != 0
    ensures report.Some? && report.value.level.Some? && report.value.level.value != 0 ==>
      b.level == report.value.level.value
    ensures b.charging <==> report.Some? && report.value.charging == Some(true)
    ensures report.None? ==> b == NoBattery
    ensures report.Some? ==> b.level == NormalizedLevel(report.value.level)
  {
    match report
    case None => NoBattery
    case Some(r) => Battery(true, NormalizedLevel(r.level), r.charging.GetOr(false))
  }

  datatype BatteryReply = BatteryReply(battery: Battery, error: string)

  /** `cmd_get_battery`. */
  function GetBattery(lookup: Lookup): (reply: BatteryReply)
    ensures !lookup.Found? ==> reply == BatteryReply(NoBattery, NoMouse)
    ensures lookup.Found? ==> reply.error == "" && reply.battery == ReadBattery(lookup.mouse.battery)
  {
    if lookup.Found? then BatteryReply(ReadBattery(lookup.mouse.battery), "") else BatteryReply(NoBattery, NoMouse)
  }

  // ---------------------------------------------------------------------------
  // detect

  datatype ConnectionType = Wireless | Bluetooth | Wired | UnknownConnection

  /** The connection type read off the device name, case-insensitively;
      `wireless` or `2.4` wins over `bluetooth`. */
  function ConnectionOf(name: string): (c: ConnectionType)
    ensures c != UnknownConnection
    ensures c == Wireless <==> Contains(Lower(name), "wireless") || Contains(Lower(name), "2.4")
    ensures c == Bluetooth <==>
      !Contains(Lower(name), "wireless") && !Contains(Lower(name), "2.4") && Contains(Lower(name), "bluetooth")
  {
    var lowered := Lower(name);
    if Contains(lowered, "wireless") || Contains(lowered, "2.4") then Wireless
    else if Contains(lowered, "bluetooth") then Bluetooth
    else Wired
  }

  /** The classification ignores case. */
  lemma ConnectionIgnoresCase(name: string)
    ensures ConnectionOf(Lower(name)) == ConnectionOf(name)
  {
    LowerOfLower(name);
    LowerUnchanged(Lower(name));
  }

  /** `vendor_product` in four-digit lowercase hexadecimal: exactly two
      `_`-separated fields, the padded ids. */
  function Pid(vendorId: nat, productId: nat): (pid: string)
    ensures Split(pid, '_') == [Hex4(vendorId), Hex4(productId)]
  {
    var parts := [Hex4(vendorId), Hex4(productId)];
    HexHasNoUnderscore(parts[0]);
    HexHasNoUnderscore(parts[1]);
    assert Join(parts, "_") == Hex4(vendorId) + "_" + Hex4(productId);
    SplitJoin(parts, '_');
    Hex4(vendorId) + "_" + Hex4(productId)
  }

  lemma HexHasNoUnderscore(h: string)
    requires AllHexDigits(h)
    ensures '_' !in h
  {
    forall i | 0 <= i < |h|
      ensures h[i] != '_'
    {
      assert IsHexDigit(h[i]);
    }
  }

  /** Splitting a pid at `_` gives back both ids. */
  lemma PidReadsBack(vendorId: nat, productId: nat)
    ensures var parts := Split(Pid(vendorId, productId), '_');
      && |parts| == 2
      && AllHexDigits(parts[0]) && HexValue(parts[0]) == vendorId
      && AllHexDigits(parts[1]) && HexValue(parts[1]) == productId
    ensures vendorId < 0x1_0000 && productId < 0x1_0000 ==> |Pid(vendorId, productId)| == 9
  {
    assert |Pid(vendorId, productId)| == |Hex4(vendorId)| + 1 + |Hex4(productId)|;
  }

  datatype DeviceInfo = DeviceInfo(
    name: string,
    pid: string,
    vendorId: string,
    productId: string,
    connection: ConnectionType)

  const BlankDevice: DeviceInfo := DeviceInfo("", "", "", "", UnknownConnection)

  /** The `capabilities` block of a reply. */
  datatype Capabilities = Capabilities(
    buttons: seq<string>,
    hasSensitivity: bool,
    hasPollingRate: bool,
    hasButtons: bool,
    sensitivityRange: (int, int),
    pollingRates: seq<int>)

  const DefaultRange: (int, int) := (100, 18000)
  const NoCapabilities: Capabilities := Capabilities([], false, false, false, DefaultRange, [])

  function Min(xs: seq<int>): (m: int)
    requires |xs| > 0
    ensures m in xs && forall x :: x in xs ==> m <= x
  {
    if |xs| == 1 then xs[0]
    else
      var rest := Min(xs[1..]);
      assert forall x :: x in xs <==> x == xs[0] || x in xs[1..];
      if xs[0] <= rest then xs[0] else rest
  }

  function Max(xs: seq<int>): (m: int)
    requires |xs| > 0
    ensures m in xs && forall x :: x in xs ==> x <= m
  {
    if |xs| == 1 then xs[0]
    else
      var rest := Max(xs[1..]);
      assert forall x :: x in xs <==> x == xs[0] || x in xs[1..];
      if xs[0] >= rest then xs[0] else rest
  }

  /** The sensitivity range: the combined setting's input range; else the
      first slot's input range, or the smallest and largest of its choices;
      else 100 to 18000. Choices of the combined setting are not consulted. */
  function SensitivityRange(settings: map<string, SettingInfo>): (r: (int, int))
    ensures "sensitivity" in settings && settings["sensitivity"].inputRange.Some? ==>
      r == settings["sensitivity"].inputRange.value
    ensures "sensitivity" !in settings && "sensitivity1" in settings ==>
      var info := settings["sensitivity1"];
      if info.inputRange.Some? then r == info.inputRange.value
      else if info.choices.Some? && |info.choices.value| > 0 then
        && r.0 in info.choices.value && r.1 in info.choices.value
        && forall x :: x in info.choices.value ==> r.0 <= x <= r.1
      else r == DefaultRange
    ensures "sensitivity" in settings && settings["sensitivity"].inputRange.None? ==> r == DefaultRange
    ensures "sensitivity" !in settings && "sensitivity1" !in settings ==> r == DefaultRange
  {
    if "sensitivity" in settings then settings["sensitivity"].inputRange.GetOr(DefaultRange)
    else if "sensitivity1" in settings then
      var info := settings["sensitivity1"];
      if info.inputRange.Some? then info.inputRange.value
      else if info.choices.Some? && |info.choices.value| > 0 then
        (Min(info.choices.value), Max(info.choices.value))
      else DefaultRange
    else DefaultRange
  }

  /** The button names whose lower-cased form starts with `button`, in order. */
  function ButtonNames(names: seq<string>): (r: seq<string>)
    ensures |r| <= |names|
    ensures forall b :: b in r <==> b in names && "button" <= Lower(b)
    decreases |names|
  {
    if |names| == 0 then []
    else
      var rest := ButtonNames(names[1..]);
      assert forall b :: b in names <==> b == names[0] || b in names[1..];
      if "button" <= Lower(names[0]) then [names[0]] + rest else rest
  }

  /** The filter keeps the profile's order and repeats: it works on each
      half of a list separately. */
  lemma {:induction false} ButtonNamesAppend(a: seq<string>, b: seq<string>)
    ensures ButtonNames(a + b) == ButtonNames(a) + ButtonNames(b)
    decreases |a|
  {
    if |a| > 0 {
      assert (a + b)[0] == a[0];
      assert (a + b)[1..] == a[1..] + b;
      ButtonNamesAppend(a[1..], b);
    } else {
      assert a + b == b;
    }
  }

  /** A single name is kept exactly when its lower-cased form starts with
      `button`. */
  lemma ButtonNamesSingle(name: string)
    ensures "button" <= Lower(name) ==> ButtonNames([name]) == [name]
    ensures !("button" <= Lower(name)) ==> ButtonNames([name]) == []
  {
    assert [name][1..] == [];
  }

  /** The capabilities a profile's settings advertise. */
  function CapabilitiesOf(settings: map<string, SettingInfo>): (c: Capabilities)
    ensures c.hasSensitivity <==> "sensitivity" in settings || "sensitivity1" in settings
    ensures c.hasPollingRate <==> "polling_rate" in settings
    ensures c.hasButtons <==> "buttons_mapping" in settings
    ensures c.sensitivityRange == SensitivityRange(settings)
    ensures c.pollingRates ==
      if "polling_rate" in settings then settings["polling_rate"].choices.GetOr([]) else []
    ensures forall b :: b in c.buttons <==>
      "buttons_mapping" in settings && settings["buttons_mapping"].buttons.Some?
      && b in settings["buttons_mapping"].buttons.value && "button" <= Lower(b)
    ensures "buttons_mapping" in settings ==> c.buttons == ButtonNames(settings["buttons_mapping"].buttons.GetOr([]))
  {
    Capabilities(
      if "buttons_mapping" in settings then ButtonNames(settings["buttons_mapping"].buttons.GetOr([])) else [],
      "sensitivity" in settings || "sensitivity1" in settings,
      "polling_rate" in settings,
      "buttons_mapping" in settings,
      SensitivityRange(settings),
      if "polling_rate" in settings then settings["polling_rate"].choices.GetOr([]) else [])
  }

  /** The reply of `detect`. */
  datatype Detection = Detection(
    available: bool,
    error: string,
    needsUdev: bool,
    device: DeviceInfo,
    battery: Battery,
    capabilities: Capabilities)

  /** `cmd_detect`. Without a mouse the reply says why and whether the udev
      rules are the likely cause; with one it describes the device. */
  function Detect(lookup: Lookup): (d: Detection)
    ensures d.available <==> lookup.Found?
    ensures d.needsUdev <==> lookup.NotDetected?
    ensures lookup.NotInstalled? ==> d.error == NotInstalledError
    ensures lookup.NotDetected? ==> d.error == NotDetectedError
    ensures !lookup.Found? ==> d.device == BlankDevice && d.battery == NoBattery && d.capabilities == NoCapabilities
    ensures lookup.Found? ==>
      var m := lookup.mouse;
      && d.error == ""
      && d.device.name == m.name
      && d.device.pid == d.device.vendorId + "_" + d.device.productId
      && AllHexDigits(d.device.vendorId) && HexValue(d.device.vendorId) == m.vendorId
      && AllHexDigits(d.device.productId) && HexValue(d.device.productId) == m.productId
      && d.device.vendorId == Hex4(m.vendorId) && d.device.productId == Hex4(m.productId)
      && d.device.connection == ConnectionOf(m.name)
      && d.battery == ReadBattery(m.battery)
      && d.capabilities == CapabilitiesOf(m.settings)
  {
    match lookup
    case NotInstalled => Detection(false, NotInstalledError, false, BlankDevice, NoBattery, NoCapabilities)
    case NotDetected => Detection(false, NotDetectedError, true, BlankDevice, NoBattery, NoCapabilities)
    case Found(m) =>
      var device := DeviceInfo(m.name, Pid(m.vendorId, m.productId), Hex4(m.vendorId), Hex4(m.productId), ConnectionOf(m.name));
      Detection(true, "", false, device, ReadBattery(m.battery), CapabilitiesOf(m.settings))
  }

  // ---------------------------------------------------------------------------
  // The presets argument

  /** `[int(x.strip()) for x in arg.split(",")]`, `None` when a piece is
      not an integer; an empty argument is one empty piece, so it fails. */
  function ParsePresets(arg: string): (r: Option<seq<int>>)
    ensures r.Some? ==> |r.value| == |Split(arg, ',')| >= 1
  {
    ParseEach(Split(arg, ','))
  }

  /** Each piece parsed on its own, in order. */
  function ParseEach(pieces: seq<string>): (r: Option<seq<int>>)
    ensures r.Some? <==> forall i :: 0 <= i < |pieces| ==> ParseInt(pieces[i]).Some?
    ensures r.Some? ==>
      && |r.value| == |pieces|
      && forall i :: 0 <= i < |pieces| ==> ParseInt(pieces[i]) == Some(r.value[i])
  {
    var xs := seq(|pieces|, i requires 0 <= i < |pieces| => ParseInt(pieces[i]));
    assert |xs| == |pieces| && forall i :: 0 <= i < |pieces| ==> xs[i] == ParseInt(pieces[i]);
    Collect(xs)
  }

  /** All the values, when none is missing; the first missing one makes
      the whole list fail, as an exception in a list comprehension does. */
  function Collect(xs: seq<Option<int>>): (r: Option<seq<int>>)
    ensures r.Some? <==> forall i :: 0 <= i < |xs| ==> xs[i].Some?
    ensures r.Some? ==> |r.value| == |xs| && forall i :: 0 <= i < |xs| ==> xs[i] == Some(r.value[i])
    decreases |xs|
  {
    if |xs| == 0 then Some([])
    else
      match xs[0]
      case None => None
      case Some(n) =>
        match Collect(xs[1..])
        case None => None
        case Some(ns) => Some([n] + ns)
  }

  function FormatAll(ns: seq<int>): (pieces: seq<string>)
    ensures |pieces| == |ns|
    ensures forall i :: 0 <= i < |ns| ==> pieces[i] == FormatInt(ns[i])
  {
    seq(|ns|, i requires 0 <= i < |ns| => FormatInt(ns[i]))
  }

  /** The comma-separated text of a preset list. */
  function FormatPresets(ns: seq<int>): string {
    Join(FormatAll(ns), ",")
  }

  lemma FormatIntHasNoComma(n: int)
    ensures ',' !in FormatInt(n)
  {
    var s := FormatInt(n);
    forall i | 0 <= i < |s|
      ensures s[i] != ','
    {
      if n < 0 && i > 0 {
        assert s[i] == Decimal(-n)[i - 1];
      }
    }
  }

  /** Any non-empty preset list survives being written as text and read back. */
  lemma PresetsRoundTrip(ns: seq<int>)
    requires |ns| >= 1
    ensures ParsePresets(FormatPresets(ns)) == Some(ns)
  {
    var pieces := FormatAll(ns);
    forall i | 0 <= i < |pieces|
      ensures ',' !in pieces[i] && ParseInt(pieces[i]) == Some(ns[i])
    {
      FormatIntHasNoComma(ns[i]);
      ParseFormatInt(ns[i]);
    }
    SplitJoin(pieces, ',');
    var r := ParseEach(pieces);
    assert r.Some?;
    assert r.value == ns;
  }
}
