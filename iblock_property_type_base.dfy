/**
  The capability contract every custom iblock property type builds on: the
  control-mode tags and storage kinds, the parser that recovers a field name
  and a row key from a control descriptor, its inverse for multi-value
  controls, the capability description handed to the host, the parameter
  list of the element-search popup, and the fail-loud defaults of the
  optional callbacks.

  PHP arrays with string keys become `map<string, ...>`; an ordered array
  whose order matters becomes a sequence of pairs. Reading a missing key of
  a PHP array yields null, which is the empty string in a string context.
 */
module IblockPropertyTypeBase {

  import opened Options
  import opened FieldNamePatterns

  /** The two exceptions this code raises. */
  datatype Failure =
    | NotImplementedMethod(methodName: string, className: string)
    | UnsupportedControlMode(mode: Option<string>)

  datatype Result<T> = Ok(value: T) | Err(error: Failure)

  // Control modes
  const EDIT_FORM := "EDIT_FORM"
  const FORM_FILL := "FORM_FILL"
  const IBLOCK_ELEMENT_ADMIN := "iblock_element_admin"

  // Storage kinds a property type may be based on
  const PROPERTY_TYPE_STRING := "S"
  const PROPERTY_TYPE_NUMBER := "N"
  const PROPERTY_TYPE_LIST := "L"
  const PROPERTY_TYPE_FILE := "F"
  const PROPERTY_TYPE_SECTION_LINK := "G"
  const PROPERTY_TYPE_ELEMENT_LINK := "E"

  const StorageKinds: set<string> :=
    {PROPERTY_TYPE_STRING, PROPERTY_TYPE_NUMBER, PROPERTY_TYPE_LIST,
     PROPERTY_TYPE_FILE, PROPERTY_TYPE_SECTION_LINK, PROPERTY_TYPE_ELEMENT_LINK}

  /** A control descriptor: MODE, VALUE (the input-field name) and any other keys. */
  type Control = map<string, string>

  /** `$control['VALUE']` in a string context: the empty string when absent. */
  function Value(control: Control): string {
    if "VALUE" in control then control["VALUE"] else ""
  }

  /** `$control['MODE']` as the exception receives it: null when absent. */
  function RawMode(control: Control): Option<string> {
    if "MODE" in control then Some(control["MODE"]) else None
  }

  /**
    getControlMode: the control's MODE when it is one of the three
    recognised tags, and the empty string when it is missing or anything else.
   */
  function ControlMode(control: Control): (mode: string)
    ensures "MODE" !in control ==> mode == ""
    ensures mode in {EDIT_FORM, FORM_FILL, IBLOCK_ELEMENT_ADMIN, ""}
    ensures mode != "" <==> "MODE" in control && control["MODE"] in {EDIT_FORM, FORM_FILL, IBLOCK_ELEMENT_ADMIN}
    ensures mode != "" ==> mode == control["MODE"]
  {
    if "MODE" !in control then ""
    else if control["MODE"] in [EDIT_FORM, FORM_FILL, IBLOCK_ELEMENT_ADMIN] then control["MODE"]
    else ""
  }

  /**
    parseNameAndKeyFromControl: in form-fill mode VALUE must start with
    `PROP[<id>][<key>]`, in admin-list mode with `FIELDS[<x>][<y>][<key>]`;
    the name is everything before the key's group. Every other mode, and a
    VALUE that does not match the pattern of its mode, raises
    UnsupportedControlMode carrying the raw MODE.
   */
  function ParseNameAndKey(control: Control): (r: Result<(string, string)>)
    ensures r.Ok? ==> ((ControlMode(control) == FORM_FILL && FormFillName(r.value.0))
                       || (ControlMode(control) == IBLOCK_ELEMENT_ADMIN && AdminName(r.value.0)))
    ensures r.Ok? ==> BracketText(r.value.1)
    ensures r.Ok? ==> r.value.0 + Bracketed(r.value.1) <= Value(control)
    ensures r.Err? ==> r.error == UnsupportedControlMode(RawMode(control))
    ensures ControlMode(control) !in {FORM_FILL, IBLOCK_ELEMENT_ADMIN} ==> r.Err?
  {
    FormFillMatchSound(Value(control));
    AdminMatchSound(Value(control));
    var mode := ControlMode(control);
    if mode == FORM_FILL && FormFillMatch(Value(control)).Some? then
      Ok(FormFillMatch(Value(control)).value)
    else if mode == IBLOCK_ELEMENT_ADMIN && AdminMatch(Value(control)).Some? then
      Ok(AdminMatch(Value(control)).value)
    else
      Err(UnsupportedControlMode(RawMode(control)))
  }

  /**
    convertControlFromMultiToSingle: the control for row `key` of a
    multi-value property. VALUE and DESCRIPTION are both derived from the old
    VALUE; every other entry is kept.
   */
  function ConvertControlFromMultiToSingle(control: Control, key: string): (single: Control)
    ensures single.Keys == control.Keys + {"VALUE", "DESCRIPTION"}
    ensures single["VALUE"] == Value(control) + "[" + key + "][VALUE]"
    ensures single["DESCRIPTION"] == Value(control) + "[" + key + "][DESCRIPTION]"
    ensures forall k :: k in control && k != "VALUE" && k != "DESCRIPTION" ==> single[k] == control[k]
  {
    var base := Value(control);
    control["VALUE" := base + "[" + key + "][VALUE]"]["DESCRIPTION" := base + "[" + key + "][DESCRIPTION]"]
  }

  /** Parsing a form-fill control finds the name and key its VALUE starts with. */
  lemma ParseFormFill(control: Control, id: string, key: string, rest: string)
    requires "MODE" in control && control["MODE"] == FORM_FILL
    requires BracketText(id) && BracketText(key)
    requires Value(control) == PropName(id) + Bracketed(key) + rest
    ensures ParseNameAndKey(control) == Ok((PropName(id), key))
  {
    FormFillMatchComplete(id, key, rest);
  }

  /** Parsing an admin-list control finds the name and key its VALUE starts with. */
  lemma ParseAdmin(control: Control, x: string, y: string, key: string, rest: string)
    requires "MODE" in control && control["MODE"] == IBLOCK_ELEMENT_ADMIN
    requires BracketText(x) && BracketText(y) && BracketText(key)
    requires Value(control) == FieldsName(x, y) + Bracketed(key) + rest
    ensures ParseNameAndKey(control) == Ok((FieldsName(x, y), key))
  {
    AdminMatchComplete(x, y, key, rest);
  }

  /** The documented form-fill example. */
  lemma ParseFormFillExample()
    ensures ParseNameAndKey(map["MODE" := FORM_FILL, "VALUE" := "PROP[111][69516][VALUE]"])
         == Ok(("PROP[111]", "69516"))
  {
    var c := map["MODE" := FORM_FILL, "VALUE" := "PROP[111][69516][VALUE]"];
    FormFillExampleValue(Value(c));
    ParseFormFill(c, "111", "69516", "[VALUE]");
  }

  /** The example VALUE split into its parts; the string is a parameter to keep the solver's work small. */
  lemma FormFillExampleValue(v: string)
    requires v == "PROP[111][69516][VALUE]"
    ensures PropName("111") == "PROP[111]"
    ensures v == PropName("111") + Bracketed("69516") + "[VALUE]"
  {
    assert PropName("111") == "PROP[111]";
  }

  /** The documented admin-list example. */
  lemma ParseAdminExample()
    ensures ParseNameAndKey(map["MODE" := IBLOCK_ELEMENT_ADMIN, "VALUE" := "FIELDS[7234][PROPERTY_111][69516][VALUE]"])
         == Ok(("FIELDS[7234][PROPERTY_111]", "69516"))
  {
    var c := map["MODE" := IBLOCK_ELEMENT_ADMIN, "VALUE" := "FIELDS[7234][PROPERTY_111][69516][VALUE]"];
    AdminExampleValue(Value(c));
    ParseAdmin(c, "7234", "PROPERTY_111", "69516", "[VALUE]");
  }

  /** The admin example VALUE split into its parts; the string is a parameter for the same reason. */
  lemma AdminExampleValue(v: string)
    requires v == "FIELDS[7234][PROPERTY_111][69516][VALUE]"
    ensures FieldsName("7234", "PROPERTY_111") == "FIELDS[7234][PROPERTY_111]"
    ensures v == FieldsName("7234", "PROPERTY_111") + Bracketed("69516") + "[VALUE]"
  {
    assert Bracketed("7234") == "[7234]";
    assert Bracketed("PROPERTY_111") == "[PROPERTY_111]";
    assert Bracketed("69516") == "[69516]";
    assert "FIELDS" + "[7234]" == "FIELDS[7234]";
    assert "FIELDS[7234]" + "[PROPERTY_111]" == "FIELDS[7234][PROPERTY_111]";
    assert "FIELDS[7234][PROPERTY_111]" + "[69516]" == "FIELDS[7234][PROPERTY_111][69516]";
    assert "FIELDS[7234][PROPERTY_111][69516]" + "[VALUE]" == v;
  }

  /** A recognised mode with a VALUE that fits no pattern is rejected, naming the mode. */
  lemma ParseBadValueExample()
    ensures ParseNameAndKey(map["MODE" := FORM_FILL, "VALUE" := "BAD_VALUE"])
         == Err(UnsupportedControlMode(Some(FORM_FILL)))
  {
    var c := map["MODE" := FORM_FILL, "VALUE" := "BAD_VALUE"];
    assert Value(c)[..4][0] != "PROP"[0];
  }

  /**
    Round trip: the single-value control built for row `key` of a form-fill
    multi-value control `PROP[<id>]` parses back to that name and that key.
   */
  lemma ConvertThenParseFormFill(control: Control, id: string, key: string)
    requires "MODE" in control && control["MODE"] == FORM_FILL
    requires BracketText(id) && BracketText(key)
    requires Value(control) == PropName(id)
    ensures ParseNameAndKey(ConvertControlFromMultiToSingle(control, key)) == Ok((Value(control), key))
  {
    var single := ConvertControlFromMultiToSingle(control, key);
    assert single["MODE"] == FORM_FILL;
    assert Value(single) == PropName(id) + Bracketed(key) + "[VALUE]";
    ParseFormFill(single, id, key, "[VALUE]");
  }

  /** The same round trip for an admin-list control `FIELDS[<x>][<y>]`. */
  lemma ConvertThenParseAdmin(control: Control, x: string, y: string, key: string)
    requires "MODE" in control && control["MODE"] == IBLOCK_ELEMENT_ADMIN
    requires BracketText(x) && BracketText(y) && BracketText(key)
    requires Value(control) == FieldsName(x, y)
    ensures ParseNameAndKey(ConvertControlFromMultiToSingle(control, key)) == Ok((Value(control), key))
  {
    var single := ConvertControlFromMultiToSingle(control, key);
    assert single["MODE"] == IBLOCK_ELEMENT_ADMIN;
    assert Value(single) == FieldsName(x, y) + Bracketed(key) + "[VALUE]";
    ParseAdmin(single, x, y, key, "[VALUE]");
  }

  /** The documented conversion example. */
  lemma ConvertExample()
    ensures ConvertControlFromMultiToSingle(map["VALUE" := "PROP[111]", "DESCRIPTION" := "PROP[111]"], "5")
         == map["VALUE" := "PROP[111][5][VALUE]", "DESCRIPTION" := "PROP[111][5][DESCRIPTION]"]
  {
    var single := ConvertControlFromMultiToSingle(map["VALUE" := "PROP[111]", "DESCRIPTION" := "PROP[111]"], "5");
    assert single.Keys == {"VALUE", "DESCRIPTION"};
    assert single["VALUE"] == "PROP[111]" + "[" + "5" + "][VALUE]" == "PROP[111][5][VALUE]";
    assert single["DESCRIPTION"] == "PROP[111]" + "[" + "5" + "][DESCRIPTION]" == "PROP[111][5][DESCRIPTION]";
  }

  /** One entry of the capability description: a plain string or a callable `[object, method]`. */
  datatype Entry = Text(text: string) | Callable(target: string, methodName: string)

  /**
    getUserTypeDescription: the three fixed entries merged with the callbacks
    mapping; array_merge lets a mapping entry with the same string key win.
   */
  function UserTypeDescription(propertyType: string, userType: string, description: string,
                               callbacks: map<string, Entry>): (d: map<string, Entry>)
    ensures d.Keys == {"PROPERTY_TYPE", "USER_TYPE", "DESCRIPTION"} + callbacks.Keys
    ensures forall k :: k in callbacks ==> d[k] == callbacks[k]
    ensures "PROPERTY_TYPE" !in callbacks ==> d["PROPERTY_TYPE"] == Text(propertyType)
    ensures "USER_TYPE" !in callbacks ==> d["USER_TYPE"] == Text(userType)
    ensures "DESCRIPTION" !in callbacks ==> d["DESCRIPTION"] == Text(description)
  {
    map["PROPERTY_TYPE" := Text(propertyType), "USER_TYPE" := Text(userType),
        "DESCRIPTION" := Text(description)] + callbacks
  }

  /** getUserType by default: the implementing class's own name. */
  function DefaultUserType(className: string): (userType: string)
    ensures userType == className
  {
    className
  }

  /** A value of the popup's query parameters. */
  datatype ParamValue = Str(s: string) | Num(n: int)

  /** The keys of an ordered parameter list, in order. */
  function ParamKeys(params: seq<(string, ParamValue)>): seq<string> {
    seq(|params|, i requires 0 <= i < |params| => params[i].0)
  }

  /** `unset($params[key])` on an ordered array: the other entries, in their order. */
  function Unset(params: seq<(string, ParamValue)>, key: string): (rest: seq<(string, ParamValue)>)
    ensures forall i :: 0 <= i < |rest| ==> rest[i].0 != key
  {
    if params == [] then []
    else if params[0].0 == key then Unset(params[1..], key)
    else [params[0]] + Unset(params[1..], key)
  }

  /** Unsetting a key the list does not hold changes nothing. */
  lemma {:induction false} UnsetAbsent(params: seq<(string, ParamValue)>, key: string)
    requires forall i :: 0 <= i < |params| ==> params[i].0 != key
    ensures Unset(params, key) == params
  {
    if params != [] {
      UnsetAbsent(params[1..], key);
    }
  }

  /** Unsetting keeps exactly the entries that do not carry the key. */
  lemma {:induction false} UnsetMembers(params: seq<(string, ParamValue)>, key: string)
    ensures forall p :: p in Unset(params, key) <==> p in params && p.0 != key
  {
    if params != [] {
      UnsetMembers(params[1..], key);
      assert params == [params[0]] + params[1..];
    }
  }

  /** Unsetting works entry by entry, so the entries that stay keep their order. */
  lemma {:induction false} UnsetAppend(a: seq<(string, ParamValue)>, b: seq<(string, ParamValue)>, key: string)
    ensures Unset(a + b, key) == Unset(a, key) + Unset(b, key)
  {
    if a == [] {
      assert a + b == b;
    } else {
      assert a + b == [a[0]] + (a[1..] + b);
      assert a == [a[0]] + a[1..];
      UnsetCons(a[0], a[1..] + b, key);
      UnsetCons(a[0], a[1..], key);
      UnsetAppend(a[1..], b, key);
    }
  }

  /** Unsetting from a list with a first entry: that entry goes when it carries the key, the rest is unset in turn. */
  lemma UnsetCons(p: (string, ParamValue), rest: seq<(string, ParamValue)>, key: string)
    ensures Unset([p] + rest, key) == (if p.0 == key then [] else [p]) + Unset(rest, key)
  {
    assert ([p] + rest)[1..] == rest;
  }

  /** The value an ordered parameter list holds under `key`, if any. */
  function Lookup(params: seq<(string, ParamValue)>, key: string): Option<ParamValue> {
    if params == [] then None
    else if params[0].0 == key then Some(params[0].1)
    else Lookup(params[1..], key)
  }

  /**
    The query parameters of getIblockElementSearchPopupJS, before they are
    encoded into the popup's URL: an ordered array from which the iblock id
    is unset when it is not positive. The iblock id defaults to 0 and the
    fix flag to "y", as in the PHP signature; the language, whose default is
    the host's LANGUAGE_ID constant, is always passed.
   */
  function PopupSearchParams(name: string, key: string, lang: string, iblockId: int := 0,
                             iblockfix: string := "y"): seq<(string, ParamValue)>
  {
    var params := [("lang", Str(lang)), ("IBLOCK_ID", Num(iblockId)), ("n", Str(name)),
                   ("k", Str(key)), ("iblockfix", Str(iblockfix))];
    if iblockId <= 0 then Unset(params, "IBLOCK_ID") else params
  }

  /** The first entry with a key is the one Lookup finds. */
  lemma {:induction false} LookupAt(params: seq<(string, ParamValue)>, i: nat)
    requires i < |params|
    requires forall j :: 0 <= j < i ==> params[j].0 != params[i].0
    ensures Lookup(params, params[i].0) == Some(params[i].1)
  {
    if i > 0 {
      LookupAt(params[1..], i - 1);
    }
  }

  /** Lookup of a key no entry has finds nothing. */
  lemma {:induction false} LookupAbsent(params: seq<(string, ParamValue)>, key: string)
    requires forall j :: 0 <= j < |params| ==> params[j].0 != key
    ensures Lookup(params, key) == None
  {
    if params != [] {
      LookupAbsent(params[1..], key);
    }
  }

  /**
    With a positive iblock id the popup parameters are language, iblock id,
    field name, field key and the fix flag, in that order, each holding its
    own argument.
   */
  lemma PopupSearchParamsWithIblock(name: string, key: string, iblockId: int, lang: string, iblockfix: string)
    requires iblockId > 0
    ensures var params := PopupSearchParams(name, key, lang, iblockId, iblockfix);
      && ParamKeys(params) == ["lang", "IBLOCK_ID", "n", "k", "iblockfix"]
      && Lookup(params, "lang") == Some(Str(lang))
      && Lookup(params, "IBLOCK_ID") == Some(Num(iblockId))
      && Lookup(params, "n") == Some(Str(name))
      && Lookup(params, "k") == Some(Str(key))
      && Lookup(params, "iblockfix") == Some(Str(iblockfix))
  {
    var params := PopupSearchParams(name, key, lang, iblockId, iblockfix);
    LookupAt(params, 0);
    LookupAt(params, 1);
    LookupAt(params, 2);
    LookupAt(params, 3);
    LookupAt(params, 4);
  }

  /** Unsetting the key of the second entry, which no other entry carries, drops just that entry. */
  lemma UnsetSecond(a: (string, ParamValue), b: (string, ParamValue), c: seq<(string, ParamValue)>, key: string)
    requires a.0 != key && b.0 == key
    requires forall i :: 0 <= i < |c| ==> c[i].0 != key
    ensures Unset([a, b] + c, key) == [a] + c
  {
    assert ([a, b] + c)[1..] == [b] + c;
    assert ([b] + c)[1..] == c;
    UnsetAbsent(c, key);
  }

  /** Unsetting the iblock id drops the second entry and keeps the rest. */
  lemma PopupSearchParamsUnset(name: string, key: string, iblockId: int, lang: string, iblockfix: string)
    requires iblockId <= 0
    ensures PopupSearchParams(name, key, lang, iblockId, iblockfix)
         == [("lang", Str(lang)), ("n", Str(name)), ("k", Str(key)), ("iblockfix", Str(iblockfix))]
  {
    var a := ("lang", Str(lang));
    var b := ("IBLOCK_ID", Num(iblockId));
    var c := [("n", Str(name)), ("k", Str(key)), ("iblockfix", Str(iblockfix))];
    assert [a, b] + c == [("lang", Str(lang)), ("IBLOCK_ID", Num(iblockId)), ("n", Str(name)),
                          ("k", Str(key)), ("iblockfix", Str(iblockfix))];
    assert "lang"[0] != "IBLOCK_ID"[0] && "n"[0] != "IBLOCK_ID"[0];
    assert "k"[0] != "IBLOCK_ID"[0] && "iblockfix"[0] != "IBLOCK_ID"[0];
    UnsetSecond(a, b, c, "IBLOCK_ID");
  }

  /**
    With an iblock id that is not positive the iblock id is unset: the
    parameters are language, field name, field key and the fix flag, in that
    order, and no iblock id is passed.
   */
  lemma PopupSearchParamsWithoutIblock(name: string, key: string, iblockId: int, lang: string, iblockfix: string)
    requires iblockId <= 0
    ensures var params := PopupSearchParams(name, key, lang, iblockId, iblockfix);
      && ParamKeys(params) == ["lang", "n", "k", "iblockfix"]
      && Lookup(params, "lang") == Some(Str(lang))
      && Lookup(params, "IBLOCK_ID") == None
      && Lookup(params, "n") == Some(Str(name))
      && Lookup(params, "k") == Some(Str(key))
      && Lookup(params, "iblockfix") == Some(Str(iblockfix))
  {
    PopupSearchParamsUnset(name, key, iblockId, lang, iblockfix);
    ParamsWithoutIblock(PopupSearchParams(name, key, lang, iblockId, iblockfix), name, key, lang, iblockfix);
  }

  /**
    The usual call with only a name and a key passes no iblock id and the
    fix flag "y": the parameters are language, field name, field key and
    iblockfix=y, in that order.
   */
  lemma PopupSearchParamsDefaultCall(name: string, key: string, lang: string)
    ensures var params := PopupSearchParams(name, key, lang);
      && ParamKeys(params) == ["lang", "n", "k", "iblockfix"]
      && Lookup(params, "IBLOCK_ID") == None
      && Lookup(params, "n") == Some(Str(name))
      && Lookup(params, "k") == Some(Str(key))
      && Lookup(params, "iblockfix") == Some(Str("y"))
  {
    PopupSearchParamsWithoutIblock(name, key, 0, lang, "y");
  }

  /**
    The four parameters left when the iblock id is unset, looked up one by one.
    The list is a parameter fixed by the requires rather than written into the
    ensures, which keeps the solver's work on the literal small.
   */
  lemma ParamsWithoutIblock(params: seq<(string, ParamValue)>, name: string, key: string, lang: string, iblockfix: string)
    requires params == [("lang", Str(lang)), ("n", Str(name)), ("k", Str(key)), ("iblockfix", Str(iblockfix))]
    ensures ParamKeys(params) == ["lang", "n", "k", "iblockfix"]
    ensures Lookup(params, "lang") == Some(Str(lang))
    ensures Lookup(params, "IBLOCK_ID") == None
    ensures Lookup(params, "n") == Some(Str(name))
    ensures Lookup(params, "k") == Some(Str(key))
    ensures Lookup(params, "iblockfix") == Some(Str(iblockfix))
  {
    LookupAt(params, 0);
    LookupAt(params, 1);
    LookupAt(params, 2);
    LookupAt(params, 3);
    LookupAbsent(params, "IBLOCK_ID");
  }

  /** The optional callbacks of the contract, each a method of the base class. */
  datatype Behaviour =
    | CheckFields | GetLength | ConvertToDB | ConvertFromDB
    | GetPropertyFieldHtml | GetAdminListViewHTML | GetPublicViewHTML | GetPublicEditHTML
    | GetSearchContent | PrepareSettings | GetSettingsHTML | GetPropertyFieldHtmlMulty
    | GetAdminFilterHTML | GetPublicFilterHTML

  /** The PHP method name of each optional callback. */
  function MethodName(b: Behaviour): string {
    match b
    case CheckFields => "checkFields"
    case GetLength => "getLength"
    case ConvertToDB => "convertToDB"
    case ConvertFromDB => "convertFromDB"
    case GetPropertyFieldHtml => "getPropertyFieldHtml"
    case GetAdminListViewHTML => "getAdminListViewHTML"
    case GetPublicViewHTML => "getPublicViewHTML"
    case GetPublicEditHTML => "getPublicEditHTML"
    case GetSearchContent => "getSearchContent"
    case PrepareSettings => "prepareSettings"
    case GetSettingsHTML => "getSettingsHTML"
    case GetPropertyFieldHtmlMulty => "getPropertyFieldHtmlMulty"
    case GetAdminFilterHTML => "getAdminFilterHTML"
    case GetPublicFilterHTML => "getPublicFilterHTML"
  }

  /** The callback a PHP method name denotes, if any: the inverse of MethodName. */
  function BehaviourNamed(name: string): (b: Option<Behaviour>)
    ensures b.Some? ==> MethodName(b.value) == name
  {
    if name == "checkFields" then Some(CheckFields)
    else if name == "getLength" then Some(GetLength)
    else if name == "convertToDB" then Some(ConvertToDB)
    else if name == "convertFromDB" then Some(ConvertFromDB)
    else if name == "getPropertyFieldHtml" then Some(GetPropertyFieldHtml)
    else if name == "getAdminListViewHTML" then Some(GetAdminListViewHTML)
    else if name == "getPublicViewHTML" then Some(GetPublicViewHTML)
    else if name == "getPublicEditHTML" then Some(GetPublicEditHTML)
    else if name == "getSearchContent" then Some(GetSearchContent)
    else if name == "prepareSettings" then Some(PrepareSettings)
    else if name == "getSettingsHTML" then Some(GetSettingsHTML)
    else if name == "getPropertyFieldHtmlMulty" then Some(GetPropertyFieldHtmlMulty)
    else if name == "getAdminFilterHTML" then Some(GetAdminFilterHTML)
    else if name == "getPublicFilterHTML" then Some(GetPublicFilterHTML)
    else None
  }

  /** Reading a callback's method name back gives the callback. */
  lemma BehaviourNamedMethodName(b: Behaviour)
    ensures BehaviourNamed(MethodName(b)) == Some(b)
  {
    match b
    case CheckFields =>
    case GetLength =>
    case ConvertToDB =>
    case ConvertFromDB =>
    case GetPropertyFieldHtml =>
    case GetAdminListViewHTML =>
    case GetPublicViewHTML =>
    case GetPublicEditHTML =>
    case GetSearchContent =>
    case PrepareSettings =>
    case GetSettingsHTML =>
    case GetPropertyFieldHtmlMulty =>
    case GetAdminFilterHTML =>
    case GetPublicFilterHTML =>
  }

  /**
    The base class's default for every optional callback: it raises
    NotImplementedMethod with the callback's own method name and the
    concrete class. The name identifies the callback uniquely.
   */
  function DefaultBehaviour<T>(b: Behaviour, className: string): (r: Result<T>)
    ensures r.Err? && r.error.NotImplementedMethod? && r.error.className == className
    ensures BehaviourNamed(r.error.methodName) == Some(b)
  {
    BehaviourNamedMethodName(b);
    Err(NotImplementedMethod(MethodName(b), className))
  }

  /** Distinct callbacks have distinct method names, so the exception identifies the callback. */
  lemma MethodNamesDistinct(b1: Behaviour, b2: Behaviour)
    ensures MethodName(b1) == MethodName(b2) ==> b1 == b2
  {
  }
}
