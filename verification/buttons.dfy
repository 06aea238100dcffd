/** The button-mapping string of the mouse wrapper: the serializer inside
    `cmd_set_buttons`, which turns a `{button: action}` mapping into
    `buttons(button1=a1; button2=a2; ...; layout=qwerty)`, and its inverse
    `parse_buttons_mapping`, which reads such a string back while dropping
    bindings that are the device's defaults. */
module ButtonMapping {
  import opened Wrappers
  import opened Text

  /** One entry of the `{button: action}` mapping, e.g. `Button9` bound to `Shift`. */
  datatype Binding = Binding(button: string, action: string)

  const Prefix: string := "buttons("
  const LayoutPart: string := "layout=qwerty"

  /** Generic modifier names spelled the way the device library expects them. */
  function KeyAlias(action: string): (r: string)
    ensures action !in {"Shift", "Ctrl", "Alt"} ==> r == action
  {
    if action == "Shift" then "LeftShift"
    else if action == "Ctrl" then "LeftCtrl"
    else if action == "Alt" then "LeftAlt"
    else action
  }

  /** The library key names the parser shows under their generic name. */
  predicate ReverseAliased(action: string) {
    action in {"LeftShift", "RightShift", "LeftCtrl", "RightCtrl", "LeftAlt"}
  }

  /** Library key names shown under their generic name; `RightAlt` and every
      other action pass through. */
  function DisplayAlias(action: string): (r: string)
    ensures !ReverseAliased(action) ==> r == action
  {
    if action == "LeftShift" || action == "RightShift" then "Shift"
    else if action == "LeftCtrl" || action == "RightCtrl" then "Ctrl"
    else if action == "LeftAlt" then "Alt"
    else action
  }

  /** Showing the library name of a generic modifier gives the modifier back. */
  lemma DisplayUndoesKeyAlias(action: string)
    requires !ReverseAliased(action)
    ensures DisplayAlias(KeyAlias(action)) == action
  {
  }

  // ---------------------------------------------------------------------------
  // Serializer

  /** `button=action` as written into the mapping string: for a button
      name without `=`, the first `=` separates the lower-cased name from
      the aliased action. */
  function EncodeBinding(b: Binding): (piece: string)
    ensures '=' !in b.button ==>
      var eq := Find(piece, '=');
      eq == |b.button| < |piece| && piece[..eq] == Lower(b.button) && piece[eq + 1..] == KeyAlias(b.action)
  {
    var key := Lower(b.button);
    assert '=' !in b.button ==> '=' !in key by {
      if '=' !in b.button {
        forall i | 0 <= i < |key|
          ensures key[i] != '='
        {
          assert b.button[i] in b.button;
        }
      }
    }
    var piece := key + "=" + KeyAlias(b.action);
    assert piece[|key|] == '=' && piece[..|key|] == key && piece[|key| + 1..] == KeyAlias(b.action);
    piece
  }

  function EncodeAll(bs: seq<Binding>): (parts: seq<string>)
    ensures |parts| == |bs|
    ensures forall i :: 0 <= i < |bs| ==> parts[i] == EncodeBinding(bs[i])
  {
    seq(|bs|, i requires 0 <= i < |bs| => EncodeBinding(bs[i]))
  }

  /** The string handed to `set_buttons_mapping`: every binding in input
      order, then the fixed layout entry, `"; "`-separated inside `buttons(...)`. */
  function Serialize(bs: seq<Binding>): (s: string)
    ensures Prefix <= s && s[|s| - 1] == ')'
  {
    Prefix + Join(EncodeAll(bs) + [LayoutPart], "; ") + ")"
  }

  // ---------------------------------------------------------------------------
  // Parser

  /** The text after `buttons(`, without the closing parenthesis if there is one. */
  function Content(s: string): (c: string)
    requires Prefix <= s
    ensures s[|s| - 1] == ')' ==> s == Prefix + c + ")"
    ensures s[|s| - 1] != ')' ==> s == Prefix + c
  {
    assert s[7] == Prefix[7];
    if s[|s| - 1] == ')' then s[|Prefix|..|s| - 1] else s[|Prefix|..]
  }

  /** What a lower-cased key and a stripped value assign, if anything:
      layout and scroll entries and keys that are not buttons are skipped,
      and so are bindings equal to the device's defaults, `buttonN=buttonN`
      (except for `button6`, whose default is `dpi`) and `disabled` on
      `button7`, `button8` and `button9`. */
  function DecodeEntry(key: string, value: string): (r: Option<Binding>)
    ensures key == "layout" || "scroll" <= key || !("button" <= key) ==> r.None?
    ensures "button" <= key ==> (r.None? <==> IsDefault(key, Lower(value)))
    ensures r.Some? ==>
      && r.value.button == "Button" + Replace(key, "button", "")
      && r.value.action == if Lower(value) == "disabled" then value else DisplayAlias(value)
  {
    assert "button" <= key ==> key[0] == 'b' && key != "layout" && !("scroll" <= key);
    if key == "layout" || "scroll" <= key then None
    else if !("button" <= key) then None
    else
      var name := "Button" + Replace(key, "button", "");
      var folded := Lower(value);
      if folded != key && folded != "disabled" then Some(Binding(name, DisplayAlias(value)))
      else if folded == "disabled" && key != "button7" && key != "button8" && key != "button9" then
        Some(Binding(name, value))
      else if key == "button6" && folded != "dpi" then Some(Binding(name, DisplayAlias(value)))
      else None
  }

  /** One `;`-separated piece: stripped, split at its first `=`, key
      stripped and lower-cased, value stripped. */
  function DecodePart(part: string): (r: Option<Binding>)
    ensures '=' !in Strip(part) ==> r.None?
    ensures r.Some? ==> "Button" <= r.value.button
  {
    DecodeStripped(Strip(part))
  }

  /** A stripped piece: no `=` means nothing is assigned. */
  function DecodeStripped(p: string): (r: Option<Binding>)
    ensures '=' !in p ==> r.None?
    ensures r.Some? ==> "Button" <= r.value.button
  {
    var eq := Find(p, '=');
    if eq == |p| then None
    else DecodeEntry(Lower(Strip(p[..eq])), Strip(p[eq + 1..]))
  }

  /** What each piece decodes to, in order. */
  function DecodeAll(parts: seq<string>): (ds: seq<Option<Binding>>)
    ensures |ds| == |parts|
    ensures forall i :: 0 <= i < |parts| ==> ds[i] == DecodePart(parts[i])
  {
    seq(|parts|, i requires 0 <= i < |parts| => DecodePart(parts[i]))
  }

  /** `ds[i]` assigns `k`, and no later piece does. */
  predicate LastAssigns(ds: seq<Option<Binding>>, i: int, k: string) {
    && 0 <= i < |ds| && ds[i].Some? && ds[i].value.button == k
    && forall j :: i < j < |ds| ==> !(ds[j].Some? && ds[j].value.button == k)
  }

  /** What assigning the decoded pieces `ds` in order gives: every assigned
      button is a key, and each key holds the action of the last piece that
      assigns it. */
  predicate AssignedBy(m: map<string, string>, ds: seq<Option<Binding>>) {
    && (forall i :: 0 <= i < |ds| && ds[i].Some? ==> ds[i].value.button in m)
    && (forall k :: k in m ==> exists i :: 0 <= i < |ds| && LastAssigns(ds, i, k) && ds[i].value.action == m[k])
  }

  /** Dropping the last piece keeps a last assignment of a button the last
      piece does not assign. */
  lemma LastAssignsLift(ds: seq<Option<Binding>>)
    requires |ds| > 0
    ensures forall i, k ::
      (LastAssigns(ds[..|ds| - 1], i, k) && !(ds[|ds| - 1].Some? && ds[|ds| - 1].value.button == k)) ==>
      LastAssigns(ds, i, k)
  {
  }

  /** The decoded pieces in order, each assignment replacing an earlier one
      for the same button, as `result[key] = value` does. */
  function Assign(ds: seq<Option<Binding>>): (m: map<string, string>)
    ensures forall k :: k in m ==> exists i :: 0 <= i < |ds| && ds[i].Some? && ds[i].value.button == k
    ensures AssignedBy(m, ds)
    decreases |ds|
  {
    if |ds| == 0 then map[]
    else
      var init := ds[..|ds| - 1];
      assert forall i :: 0 <= i < |ds| - 1 ==> init[i] == ds[i];
      LastAssignsLift(ds);
      var m := Assign(init);
      match ds[|ds| - 1]
      case None => m
      case Some(b) =>
        assert LastAssigns(ds, |ds| - 1, b.button);
        m[b.button := b.action]
  }

  /** `AssignedBy` fixes the map: there is only one way to assign a sequence
      of pieces. */
  lemma AssignedByUnique(m1: map<string, string>, m2: map<string, string>, ds: seq<Option<Binding>>)
    requires AssignedBy(m1, ds) && AssignedBy(m2, ds)
    ensures m1 == m2
  {
    forall k | k in m1
      ensures k in m2 && m1[k] == m2[k]
    {
      var i :| 0 <= i < |ds| && LastAssigns(ds, i, k) && ds[i].value.action == m1[k];
      var j :| 0 <= j < |ds| && LastAssigns(ds, j, k) && ds[j].value.action == m2[k];
      assert ds[i].value.button in m2;
      assert !(i < j) && !(j < i);
    }
    forall k | k in m2
      ensures k in m1
    {
      var j :| 0 <= j < |ds| && LastAssigns(ds, j, k) && ds[j].value.action == m2[k];
      assert ds[j].Some?;
      assert ds[j].value.button in m1;
    }
  }

  /** The `;`-separated pieces of the content, assigned in order. */
  function DecodeParts(parts: seq<string>): (m: map<string, string>)
    ensures AssignedBy(m, DecodeAll(parts))
    ensures forall k :: k in m ==> "Button" <= k
  {
    Assign(DecodeAll(parts))
  }

  /** `parse_buttons_mapping`: an empty mapping unless the string starts with
      `buttons(`; otherwise the assignments of its `;`-separated pieces. */
  function Parse(s: string): (m: map<string, string>)
    ensures !(Prefix <= s) ==> m == map[]
    ensures Prefix <= s ==> AssignedBy(m, DecodeAll(Split(Content(s), ';')))
    ensures forall k :: k in m ==> "Button" <= k
  {
    if !(Prefix <= s) then map[] else DecodeParts(Split(Content(s), ';'))
  }

  // ---------------------------------------------------------------------------
  // What survives a round trip

  /** `dict(bindings)`: a later binding of a button replaces an earlier one. */
  function ToMap(bs: seq<Binding>): map<string, string>
    decreases |bs|
  {
    if |bs| == 0 then map[]
    else ToMap(bs[..|bs| - 1])[bs[|bs| - 1].button := bs[|bs| - 1].action]
  }

  /** `Button` followed by decimal digits. */
  predicate IsButtonName(button: string) {
    |button| >= 6 && button[..6] == "Button" && AllDigits(button[6..])
  }

  /** A binding the serializer can write so that the parser reads the same piece back. */
  predicate Serializable(b: Binding) {
    IsButtonName(b.button) && ';' !in b.action && Stripped(b.action)
  }

  /** The parser's notion of a default binding for a lower-cased key and a
      lower-cased action: the button's own name (except `button6`, whose
      default is `dpi`), or `disabled` on `button7`, `button8` and `button9`. */
  predicate IsDefault(key: string, folded: string) {
    || (folded == key && key != "button6")
    || (folded == "disabled" && key in {"button7", "button8", "button9"})
  }

  /** A binding the parser drops because it is the device's default. */
  predicate Suppressed(b: Binding) {
    IsDefault(Lower(b.button), Lower(b.action))
  }

  /** What the parser reports for a binding: nothing for a default, else the
      binding with its action as the parser shows it. */
  function Survivor(b: Binding): Option<Binding> {
    if Suppressed(b) then None else Some(Binding(b.button, DisplayAlias(KeyAlias(b.action))))
  }

  /** The bindings the parser reports, in order. */
  function Survivors(bs: seq<Binding>): (r: seq<Binding>)
    ensures |r| <= |bs|
    ensures forall x :: x in r <==> exists i :: 0 <= i < |bs| && Survivor(bs[i]) == Some(x)
    decreases |bs|
  {
    if |bs| == 0 then []
    else
      var init := bs[..|bs| - 1];
      assert forall i :: 0 <= i < |bs| - 1 ==> init[i] == bs[i];
      var rest := Survivors(init);
      match Survivor(bs[|bs| - 1])
      case None => rest
      case Some(b) => rest + [b]
  }

  /** A binding that comes back from the parser exactly as it went in. */
  predicate RoundTrips(b: Binding) {
    Serializable(b) && !ReverseAliased(b.action) && !Suppressed(b)
  }

  // ---------------------------------------------------------------------------
  // Proofs

  lemma LowerButton(digits: string)
    requires AllDigits(digits)
    ensures Lower("Button" + digits) == "button" + digits
  {
    LowerConcat("Button", digits);
    assert Lower("Button") == "button";
    LowerUnchanged(digits);
  }

  lemma DropButtonWord(digits: string)
    requires AllDigits(digits)
    ensures Replace("button" + digits, "button", "") == digits
  {
    var s := "button" + digits;
    assert s[..6] == "button";
    assert s[6..] == digits;
    NoOccurrenceWithoutFirstChar(digits, "button");
  }

  /** A piece `key=value` with a stripped key free of `=` and a stripped
      value decodes as that key, lower-cased, and that value. */
  lemma DecodeCanonicalPart(key: string, value: string)
    requires |key| > 0 && '=' !in key && Stripped(key) && Stripped(value)
    ensures DecodePart(key + "=" + value) == DecodeEntry(Lower(key), value)
  {
    var part := key + "=" + value;
    assert Strip(part) == part by {
      assert part[0] == key[0];
      assert part[|part| - 1] == if |value| == 0 then '=' else value[|value| - 1];
      StripUnchanged(part);
    }
    assert Find(part, '=') == |key| by {
      SplitFind(key, value);
    }
    assert part[..|key|] == key && part[|key| + 1..] == value;
    assert Strip(key) == key && Strip(value) == value by {
      StripUnchanged(key);
      StripUnchanged(value);
    }
  }

  lemma SplitFind(key: string, value: string)
    requires '=' !in key
    ensures Find(key + "=" + value, '=') == |key|
  {
    var part := key + "=" + value;
    assert part[|key|] == '=';
    assert forall i :: 0 <= i < |key| ==> part[i] == key[i];
  }

  /** The facts about a key `buttonN` that decide how the parser treats it. */
  lemma ButtonKey(digits: string)
    requires AllDigits(digits)
    ensures var key := "button" + digits;
      && "button" <= key && key != "layout" && !("scroll" <= key)
      && Replace(key, "button", "") == digits
  {
    var key := "button" + digits;
    assert key[0] == 'b';
    assert "layout"[0] == 'l' && "scroll"[0] == 's';
    DropButtonWord(digits);
  }

  /** How the parser's default rules apply to the key `buttonN`. */
  lemma {:induction false} DecodeButtonEntry(digits: string, value: string)
    requires AllDigits(digits)
    ensures DecodeEntry("button" + digits, value) ==
      (if IsDefault("button" + digits, Lower(value)) then None
       else Some(Binding("Button" + digits, if Lower(value) == "disabled" then value else DisplayAlias(value))))
  {
    ButtonKey(digits);
  }

  /** Writing a generic modifier under its library name changes neither which
      default rule applies nor, for `disabled`, the text itself. */
  lemma AliasKeepsDefaults(key: string, action: string)
    requires "button" <= key
    ensures IsDefault(key, Lower(KeyAlias(action))) == IsDefault(key, Lower(action))
    ensures Lower(KeyAlias(action)) == "disabled" ==> KeyAlias(action) == action && !ReverseAliased(action)
  {
    if action in {"Shift", "Ctrl", "Alt"} {
      var folded := Lower(KeyAlias(action));
      var plain := Lower(action);
      assert key[0] == 'b' && "disabled"[0] == 'd';
      assert folded[0] == 'l';
      assert plain[0] in {'s', 'c', 'a'};
      assert folded != key && folded != "disabled";
      assert plain != key && plain != "disabled";
    } else if Lower(action) == "disabled" {
      assert LowerChar(action[0]) == 'd';
      assert action[0] == 'd' || action[0] == 'D';
    }
  }

  /** The `buttonN=action` piece written for a `ButtonN` binding. */
  lemma EncodedPiece(b: Binding)
    requires Serializable(b)
    ensures var digits := b.button[6..];
      && AllDigits(digits)
      && b.button == "Button" + digits
      && EncodeBinding(b) == ("button" + digits) + "=" + KeyAlias(b.action)
      && |"button" + digits| > 0 && '=' !in "button" + digits && ';' !in "button" + digits
      && Stripped("button" + digits) && NoUpper("button" + digits)
  {
    var digits := b.button[6..];
    assert b.button == "Button" + digits;
    LowerButton(digits);
    var key := "button" + digits;
    assert key[0] == 'b';
    if |digits| > 0 {
      assert key[|key| - 1] == digits[|digits| - 1];
    }
    assert forall i :: 0 <= i < |digits| ==> key[6 + i] == digits[i];
    assert forall i :: 0 <= i < 6 ==> key[i] == "button"[i];
  }

  /** What the parser makes of one serialized binding. */
  lemma {:induction false} EntryTrip(b: Binding)
    requires Serializable(b)
    ensures DecodePart(EncodeBinding(b)) == Survivor(b)
  {
    EncodedPiece(b);
    var digits := b.button[6..];
    var key := "button" + digits;
    var value := KeyAlias(b.action);
    DecodeCanonicalPart(key, value);
    LowerUnchanged(key);
    DecodeButtonEntry(digits, value);
    LowerButton(digits);
    AliasKeepsDefaults(key, b.action);
  }

  /** The survivors keep the input's order: those of a concatenation are
      the survivors of each half, in turn. */
  lemma {:induction false} SurvivorsAppend(a: seq<Binding>, b: seq<Binding>)
    ensures Survivors(a + b) == Survivors(a) + Survivors(b)
    decreases |b|
  {
    if |b| == 0 {
      assert a + b == a;
    } else {
      var init := b[..|b| - 1];
      assert (a + b)[..|a + b| - 1] == a + init;
      assert (a + b)[|a + b| - 1] == b[|b| - 1];
      SurvivorsAppend(a, init);
    }
  }

  /** A single binding survives as itself with its action shown through the
      display table, unless it is a device default. */
  lemma SurvivorsSingle(b: Binding)
    ensures Suppressed(b) ==> Survivors([b]) == []
    ensures !Suppressed(b) ==> Survivors([b]) == [Binding(b.button, DisplayAlias(KeyAlias(b.action)))]
  {
    assert [b][..0] == [];
  }

  lemma ToMapSnoc(bs: seq<Binding>, b: Binding)
    ensures ToMap(bs + [b]) == ToMap(bs)[b.button := b.action]
  {
    assert (bs + [b])[..|bs|] == bs;
  }

  lemma {:induction false} DecodeEncodeAll(bs: seq<Binding>)
    requires forall i :: 0 <= i < |bs| ==> Serializable(bs[i])
    ensures DecodeParts(EncodeAll(bs)) == ToMap(Survivors(bs))
    decreases |bs|
  {
    if |bs| > 0 {
      var init := bs[..|bs| - 1];
      var b := bs[|bs| - 1];
      assert DecodeAll(EncodeAll(bs))[..|bs| - 1] == DecodeAll(EncodeAll(init));
      DecodeEncodeAll(init);
      EntryTrip(b);
      match Survivor(b)
      case None =>
      case Some(kept) =>
        ToMapSnoc(Survivors(init), kept);
    }
  }

  lemma DecodeAfterSpace(x: string)
    ensures DecodePart(" " + x) == DecodePart(x)
  {
    StripAfterSpace(' ', x);
  }

  /** The space after each `;` in the serialized string is stripped away. */
  lemma SpacedPartsDecode(parts: seq<string>)
    ensures DecodeParts(PrefixTail(parts, " ")) == DecodeParts(parts)
  {
    var spaced := PrefixTail(parts, " ");
    forall i | 0 <= i < |parts|
      ensures DecodePart(spaced[i]) == DecodePart(parts[i])
    {
      if i == 0 {
        assert spaced[i] == parts[i];
      } else {
        assert spaced[i] == " " + parts[i];
        DecodeAfterSpace(parts[i]);
      }
    }
    assert DecodeAll(spaced) == DecodeAll(parts);
  }

  lemma SkippedKey(key: string, value: string)
    requires |key| > 0 && '=' !in key && Stripped(key) && Stripped(value) && Lower(key) == "layout"
    ensures DecodePart(key + "=" + value) == None
  {
    DecodeCanonicalPart(key, value);
  }

  lemma LayoutSkipped()
    ensures DecodePart(LayoutPart) == None
  {
    LowerUnchanged("layout");
    SkippedKey("layout", "qwerty");
    assert LayoutPart == "layout" + "=" + "qwerty";
  }

  lemma PieceHasNoSemicolon(b: Binding)
    requires Serializable(b)
    ensures ';' !in EncodeBinding(b)
  {
    EncodedPiece(b);
    var key := "button" + b.button[6..];
    var value := KeyAlias(b.action);
    assert ';' !in value;
    assert forall i :: 0 <= i < |key| ==> (key + "=" + value)[i] == key[i];
    assert forall i :: 0 <= i < |value| ==> (key + "=" + value)[|key| + 1 + i] == value[i];
  }

  /** The pieces the parser sees when it splits a serialized mapping at `;`. */
  lemma {:induction false} SerializedPieces(bs: seq<Binding>)
    requires forall i :: 0 <= i < |bs| ==> Serializable(bs[i])
    ensures Split(Content(Serialize(bs)), ';') == PrefixTail(EncodeAll(bs) + [LayoutPart], " ")
  {
    var parts := EncodeAll(bs) + [LayoutPart];
    var joined := Join(parts, "; ");
    assert Serialize(bs) == Prefix + joined + ")";
    assert Content(Serialize(bs)) == joined;
    assert "; " == [';'] + " ";
    JoinLongSeparator(parts, ';', " ");
    SpacedPiecesClean(bs);
    SplitJoin(PrefixTail(parts, " "), ';');
  }

  /** No piece of a serialized mapping, with or without its leading space,
      holds a `;`. */
  lemma SpacedPiecesClean(bs: seq<Binding>)
    requires forall i :: 0 <= i < |bs| ==> Serializable(bs[i])
    ensures var spaced := PrefixTail(EncodeAll(bs) + [LayoutPart], " ");
      forall i :: 0 <= i < |spaced| ==> ';' !in spaced[i]
  {
    var parts := EncodeAll(bs) + [LayoutPart];
    var spaced := PrefixTail(parts, " ");
    forall i | 0 <= i < |spaced|
      ensures ';' !in spaced[i]
    {
      assert ';' !in parts[i] by {
        if i < |bs| {
          PieceHasNoSemicolon(bs[i]);
        } else {
          assert parts[i] == LayoutPart;
        }
      }
      if i > 0 {
        assert spaced[i] == " " + parts[i];
      } else {
        assert spaced[i] == parts[i];
      }
    }
  }

  /** A piece that decodes to nothing leaves the mapping as it was. */
  lemma AssignSkipsNothing(ds: seq<Option<Binding>>)
    ensures Assign(ds + [None]) == Assign(ds)
  {
    assert (ds + [None])[..|ds|] == ds;
  }

  lemma DecodeAllSnoc(parts: seq<string>, x: string)
    ensures DecodeAll(parts + [x]) == DecodeAll(parts) + [DecodePart(x)]
  {
  }

  /** Parsing a serialized mapping gives back exactly the bindings that are
      not device defaults, their actions as the parser shows them, with a
      later binding of a button winning. */
  lemma {:induction false} ParseSerialize(bs: seq<Binding>)
    requires forall i :: 0 <= i < |bs| ==> Serializable(bs[i])
    ensures Parse(Serialize(bs)) == ToMap(Survivors(bs))
  {
    var s := Serialize(bs);
    var pieces := EncodeAll(bs);
    var parts := pieces + [LayoutPart];
    SerializedPieces(bs);
    assert Parse(s) == DecodeParts(PrefixTail(parts, " "));
    SpacedPartsDecode(parts);
    DecodeAllSnoc(pieces, LayoutPart);
    LayoutSkipped();
    AssignSkipsNothing(DecodeAll(pieces));
    assert DecodeParts(parts) == DecodeParts(pieces);
    DecodeEncodeAll(bs);
  }

  /** `{"Button1": "Shift"}` is written with the library's key name... */
  lemma SerializeShiftExample()
    ensures Serialize([Binding("Button1", "Shift")]) == "buttons(" + "button1=LeftShift" + "; " + "layout=qwerty" + ")"
  {
    var b := Binding("Button1", "Shift");
    assert b.button == "Button" + "1";
    LowerButton("1");
    var piece := EncodeBinding(b);
    assert piece == "button1" + "=" + "LeftShift";
    var parts := EncodeAll([b]) + [LayoutPart];
    assert parts == [piece, LayoutPart];
    assert Join(parts, "; ") == piece + "; " + LayoutPart by {
      assert parts[1..] == [LayoutPart];
    }
    assert piece == "button1=LeftShift";
  }

  /** ...and reads back under the generic one. */
  lemma ParseShiftExample()
    ensures Parse("buttons(" + "button1=LeftShift" + "; " + "layout=qwerty" + ")") == map["Button1" := "Shift"]
  {
    var b := Binding("Button1", "Shift");
    SerializeShiftExample();
    assert b.button == "Button" + "1";
    LowerButton("1");
    assert Lower(b.action)[0] == 's';
    assert RoundTrips(b);
    RoundTrip([b]);
    assert ToMap([b]) == map["Button1" := "Shift"];
  }

  /** Pieces the parser drops: a button's own name (in any case),
      `disabled` on `button7`, and every `scroll` key. */
  lemma DroppedExamples()
    ensures DecodeEntry("button1", "Button1") == None
    ensures DecodeEntry("button7", "disabled") == None
    ensures DecodeEntry("scroll_up", "button1") == None
  {
    assert Lower("Button1") == "button1";
    assert Lower("disabled") == "disabled";
    ButtonKey("1");
    ButtonKey("7");
    assert "scroll" <= "scroll_up";
  }

  /** A button's own name is kept for `button6`, whose default is `dpi`... */
  lemma Button6Kept()
    ensures DecodeEntry("button6", "button6") == Some(Binding("Button6", "button6"))
  {
    var key, value := "button" + "6", "button6";
    assert key == value;
    DecodeButtonEntry("6", value);
    assert Lower(value) == value by {
      LowerButton("6");
      LowerOfLower("Button" + "6");
      LowerUnchanged(value);
    }
    assert !IsDefault(key, value);
    assert !ReverseAliased(value);
    assert "Button" + "6" == "Button6";
  }

  /** ...but `button6=dpi` is kept as well, because the first rule accepts
      it before the `button6` rule is consulted. */
  lemma Button6DpiKept()
    ensures DecodeEntry("button6", "dpi") == Some(Binding("Button6", "dpi"))
  {
    ButtonKey("6");
    LowerUnchanged("dpi");
    assert !ReverseAliased("dpi");
    assert !IsDefault("button6", "dpi");
    assert "Button" + "6" == "Button6";
  }

  /** `disabled` is kept, verbatim, on buttons other than 7, 8 and 9. */
  lemma DisabledKept()
    ensures DecodeEntry("button2", "Disabled") == Some(Binding("Button2", "Disabled"))
  {
    ButtonKey("2");
    LowerConcat("D", "isabled");
    LowerUnchanged("isabled");
    assert Lower("D") == "d";
    assert Lower("Disabled") == "disabled";
    assert !IsDefault("button2", "disabled");
    assert "Button" + "2" == "Button2";
  }

  /** `RightShift` is shown as `Shift`, while `RightAlt` is shown as is. */
  lemma AliasExamples()
    ensures DecodeEntry("button9", "RightShift") == Some(Binding("Button9", "Shift"))
    ensures DecodeEntry("button9", "RightAlt") == Some(Binding("Button9", "RightAlt"))
  {
    ButtonKey("9");
    assert "Button" + "9" == "Button9";
    var rs := Lower("RightShift");
    var ra := Lower("RightAlt");
    assert rs[0] == 'r' && ra[0] == 'r';
    assert rs != "disabled" && rs != "button9" && ra != "disabled" && ra != "button9";
    assert !ReverseAliased("RightAlt");
  }

  lemma {:induction false} SurvivorsOfRoundTrips(bs: seq<Binding>)
    requires forall i :: 0 <= i < |bs| ==> RoundTrips(bs[i])
    ensures Survivors(bs) == bs
    decreases |bs|
  {
    if |bs| > 0 {
      var init, b := bs[..|bs| - 1], bs[|bs| - 1];
      assert bs == init + [b];
      assert Survivors(init) == init by {
        assert forall i :: 0 <= i < |init| ==> init[i] == bs[i];
        SurvivorsOfRoundTrips(init);
      }
      assert Survivors([b]) == [b] by {
        assert RoundTrips(b);
        DisplayUndoesKeyAlias(b.action);
        SurvivorsSingle(b);
      }
      SurvivorsAppend(init, [b]);
    }
  }

  /** The round trip: a mapping of `ButtonN` names to stripped actions free of
      `;`, library modifier names and device defaults parses back to itself. */
  lemma RoundTrip(bs: seq<Binding>)
    requires forall i :: 0 <= i < |bs| ==> RoundTrips(bs[i])
    ensures Parse(Serialize(bs)) == ToMap(bs)
  {
    ParseSerialize(bs);
    SurvivorsOfRoundTrips(bs);
  }
}
