/**
  The basket-rule property type: a string property whose admin field is a
  single `<select>` listing every basket (discount) rule, with a leading
  "not selected" option of value 0 and the stored rule marked selected.

  The rows of the host's discount table are a parameter. The PHP array the
  rows are collected into is ordered: assigning to a key it already holds
  replaces the value in place, a new key goes to the end. It is modelled as
  a sequence of rules with distinct ids.
 */
module BasketRuleType {

  import opened Options
  import opened Decimal
  import Base = IblockPropertyTypeBase

  /** `static::class` of this type, which the NotImplemented exceptions carry. */
  const ClassName := "WebArch\\BitrixIblockPropertyType\\BasketRuleType"

  /** getPropertyType: values are stored as strings. */
  function PropertyType(): (kind: string)
    ensures kind in Base.StorageKinds
    ensures kind == Base.PROPERTY_TYPE_STRING
  {
    Base.PROPERTY_TYPE_STRING
  }

  /** getDescription: the caption shown when choosing a property type. */
  function Description(): string {
    "Привязка к правилу работы с корзиной"
  }

  /** getUserType: a fixed identifier that replaces the class-name default. */
  function UserType(): (userType: string)
    ensures userType != Base.DefaultUserType(ClassName)
    ensures userType == "basket_rule"
  {
    "basket_rule"
  }

  /** getCallbacksMapping: only the field renderer is implemented. */
  function CallbacksMapping(): (callbacks: map<string, Base.Entry>)
    ensures callbacks.Keys == {"GetPropertyFieldHtml"}
    ensures callbacks["GetPropertyFieldHtml"]
         == Base.Callable(ClassName, Base.MethodName(Base.GetPropertyFieldHtml))
  {
    map["GetPropertyFieldHtml" := Base.Callable(ClassName, "getPropertyFieldHtml")]
  }

  /** The mapping declares a callback when one of its entries refers to that callback's method. */
  predicate Declares(b: Base.Behaviour) {
    exists k :: k in CallbacksMapping() && CallbacksMapping()[k] == Base.Callable(ClassName, Base.MethodName(b))
  }

  /**
    The capability description the host receives: storage kind `S`, user
    type `basket_rule`, the caption, and exactly one callback, the field
    renderer; no other callback is declared.
   */
  lemma UserTypeDescriptionOfBasketRule()
    ensures var d := Base.UserTypeDescription(PropertyType(), UserType(), Description(), CallbacksMapping());
      && d.Keys == {"PROPERTY_TYPE", "USER_TYPE", "DESCRIPTION", "GetPropertyFieldHtml"}
      && d["PROPERTY_TYPE"] == Base.Text("S")
      && d["USER_TYPE"] == Base.Text("basket_rule")
      && d["DESCRIPTION"] == Base.Text(Description())
      && d["GetPropertyFieldHtml"] == Base.Callable(ClassName, "getPropertyFieldHtml")
    ensures forall b :: Declares(b) <==> b == Base.GetPropertyFieldHtml
  {
    forall b ensures Declares(b) <==> b == Base.GetPropertyFieldHtml {
      Base.MethodNamesDistinct(b, Base.GetPropertyFieldHtml);
      if b == Base.GetPropertyFieldHtml {
        assert "GetPropertyFieldHtml" in CallbacksMapping();
      }
    }
  }

  // ---------------------------------------------------------------------
  // The rules, collected from the discount table's rows

  /** One row of the discount table, reduced to the two columns used. */
  datatype DiscountRow = DiscountRow(id: int, name: string)

  /** One entry of the ordered id => name array. */
  datatype Rule = Rule(id: int, name: string)

  function Ids(rules: seq<Rule>): seq<int> {
    seq(|rules|, i requires 0 <= i < |rules| => rules[i].id)
  }

  lemma IdsCons(rule: Rule, rules: seq<Rule>)
    ensures Ids([rule] + rules) == [rule.id] + Ids(rules)
  {
  }

  function RowIds(rows: seq<DiscountRow>): seq<int> {
    seq(|rows|, i requires 0 <= i < |rows| => rows[i].id)
  }

  lemma RowIdsSnoc(rows: seq<DiscountRow>)
    requires rows != []
    ensures RowIds(rows) == RowIds(rows[..|rows| - 1]) + [rows[|rows| - 1].id]
  {
  }

  predicate Distinct(s: seq<int>) {
    forall i, j :: 0 <= i < j < |s| ==> s[i] != s[j]
  }

  /** `$result[$id]`: the name an ordered array holds under `id`, if any. */
  function Find(rules: seq<Rule>, id: int): (r: Option<string>)
    ensures r.Some? <==> id in Ids(rules)
  {
    if rules == [] then None
    else if rules[0].id == id then
      assert Ids(rules)[0] == id;
      Some(rules[0].name)
    else
      IdsCons(rules[0], rules[1..]);
      assert [rules[0]] + rules[1..] == rules;
      Find(rules[1..], id)
  }

  /**
    `$result[$id] = $name`: an id already present keeps its place and takes
    the new name; a new id is appended.
   */
  function Put(rules: seq<Rule>, id: int, name: string): seq<Rule> {
    if rules == [] then [Rule(id, name)]
    else if rules[0].id == id then [Rule(id, name)] + rules[1..]
    else [rules[0]] + Put(rules[1..], id, name)
  }

  /** After the assignment the id holds the new name; every other id keeps what it held. */
  lemma {:induction false} PutFind(rules: seq<Rule>, id: int, name: string, k: int)
    ensures Find(Put(rules, id, name), k) == if k == id then Some(name) else Find(rules, k)
  {
    if rules != [] {
      var r := Put(rules, id, name);
      assert r[1..] == if rules[0].id == id then rules[1..] else Put(rules[1..], id, name);
      if rules[0].id != id {
        PutFind(rules[1..], id, name, k);
      }
    }
  }

  /** The assignment keeps the ids and their order, appending the id when it is new. */
  lemma {:induction false} PutIds(rules: seq<Rule>, id: int, name: string)
    ensures Ids(Put(rules, id, name)) == if id in Ids(rules) then Ids(rules) else Ids(rules) + [id]
  {
    if rules != [] {
      IdsCons(rules[0], rules[1..]);
      assert [rules[0]] + rules[1..] == rules;
      if rules[0].id == id {
        IdsCons(Rule(id, name), rules[1..]);
      } else {
        PutIds(rules[1..], id, name);
        IdsCons(rules[0], Put(rules[1..], id, name));
      }
    }
  }

  /** getBasketRules as a fold: the rows assigned one after the other. */
  function RulesOf(rows: seq<DiscountRow>): seq<Rule> {
    if rows == [] then []
    else
      var last := rows[|rows| - 1];
      Put(RulesOf(rows[..|rows| - 1]), last.id, last.name)
  }

  /** Reference definition: the name of the last row with this id, if any row has it. */
  function LastName(rows: seq<DiscountRow>, id: int): Option<string> {
    if rows == [] then None
    else if rows[|rows| - 1].id == id then Some(rows[|rows| - 1].name)
    else LastName(rows[..|rows| - 1], id)
  }

  /** The position of the first occurrence of `x` in `s`. */
  function FirstIndex(s: seq<int>, x: int): (k: nat)
    requires x in s
    ensures k < |s| && s[k] == x
    ensures forall j :: 0 <= j < k ==> s[j] != x
  {
    if s[0] == x then 0 else 1 + FirstIndex(s[1..], x)
  }

  lemma {:induction false} FirstIndexAppend(s: seq<int>, y: int, x: int)
    requires x in s
    ensures x in s + [y] && FirstIndex(s + [y], x) == FirstIndex(s, x)
  {
    if s[0] != x {
      assert (s + [y])[1..] == s[1..] + [y];
      FirstIndexAppend(s[1..], y, x);
    }
  }

  /** Under every id, the collected rules hold the name of the last row with that id. */
  lemma {:induction false} RulesOfFind(rows: seq<DiscountRow>, id: int)
    ensures Find(RulesOf(rows), id) == LastName(rows, id)
  {
    if rows != [] {
      var last := rows[|rows| - 1];
      RulesOfFind(rows[..|rows| - 1], id);
      PutFind(RulesOf(rows[..|rows| - 1]), last.id, last.name, id);
    }
  }

  /** The collected rules hold one entry per distinct id: no id twice. */
  lemma {:induction false} RulesOfDistinct(rows: seq<DiscountRow>)
    ensures Distinct(Ids(RulesOf(rows)))
  {
    if rows != [] {
      var last := rows[|rows| - 1];
      RulesOfDistinct(rows[..|rows| - 1]);
      PutIds(RulesOf(rows[..|rows| - 1]), last.id, last.name);
    }
  }

  /** An id has an entry exactly when some row carries it. */
  lemma {:induction false} RulesOfIds(rows: seq<DiscountRow>, id: int)
    ensures id in Ids(RulesOf(rows)) <==> id in RowIds(rows)
  {
    if rows != [] {
      var pre := rows[..|rows| - 1];
      RulesOfIds(pre, id);
      PutIds(RulesOf(pre), rows[|rows| - 1].id, rows[|rows| - 1].name);
      RowIdsSnoc(rows);
    }
  }

  /** Every id of `ids` occurs in `s`, and `ids` lists them in the order of their first occurrence there. */
  predicate InFirstOccurrenceOrder(ids: seq<int>, s: seq<int>) {
    && (forall k :: 0 <= k < |ids| ==> ids[k] in s)
    && (forall i, j :: 0 <= i < j < |ids| ==> FirstIndex(s, ids[i]) < FirstIndex(s, ids[j]))
  }

  /** One more occurrence keeps the order; an id not seen before goes last. */
  lemma OrderExtend(before: seq<int>, s: seq<int>, y: int)
    requires InFirstOccurrenceOrder(before, s)
    requires forall id :: id in before <==> id in s
    ensures InFirstOccurrenceOrder(if y in before then before else before + [y], s + [y])
  {
    forall id | id in before ensures FirstIndex(s + [y], id) == FirstIndex(s, id) {
      FirstIndexAppend(s, y, id);
    }
    if y !in before {
      var k := FirstIndex(s + [y], y);
      assert y !in s;
      assert k == |s|;
      var after := before + [y];
      forall i | 0 <= i < |before| ensures FirstIndex(s + [y], after[i]) < FirstIndex(s + [y], y) {
        assert after[i] == before[i] && before[i] in s;
      }
    }
  }

  /** The entries appear in the order in which their ids first occur among the rows. */
  lemma {:induction false} RulesOfOrder(rows: seq<DiscountRow>)
    ensures InFirstOccurrenceOrder(Ids(RulesOf(rows)), RowIds(rows))
  {
    if rows != [] {
      var pre := rows[..|rows| - 1];
      var x := rows[|rows| - 1];
      var before, s := Ids(RulesOf(pre)), RowIds(pre);
      RulesOfOrder(pre);
      forall id ensures id in before <==> id in s {
        RulesOfIds(pre, id);
      }
      OrderExtend(before, s, x.id);
      PutIds(RulesOf(pre), x.id, x.name);
      RowIdsSnoc(rows);
      assert Ids(RulesOf(rows)) == if x.id in before then before else before + [x.id];
    }
  }

  /**
    getBasketRules: one entry per distinct row id, holding the name of the
    last row with that id.
   */
  method GetBasketRules(rows: seq<DiscountRow>) returns (rules: seq<Rule>)
    ensures rules == RulesOf(rows)
    ensures Distinct(Ids(rules))
    ensures forall id :: Find(rules, id) == LastName(rows, id)
  {
    rules := [];
    for i := 0 to |rows|
      invariant rules == RulesOf(rows[..i])
    {
      assert rows[..i + 1][..i] == rows[..i];
      rules := Put(rules, rows[i].id, rows[i].name);
    }
    assert rows[..|rows|] == rows;
    RulesOfDistinct(rows);
    forall id ensures Find(rules, id) == LastName(rows, id) {
      RulesOfFind(rows, id);
    }
  }

  // ---------------------------------------------------------------------
  // The option list

  /** The text of the leading option. */
  const NotSelectedCaption := "(не выбран)"

  /** The start tag of the leading option without its `>`: `<option value="0" `. */
  const NotSelectedHead := ValuePrefix + "0" + "\" "

  /** The leading option, `<option value="0" >(не выбран)</option>`. */
  const NotSelectedOption := NotSelectedHead + ">" + NotSelectedCaption + CloseTag

  const SelectedAttribute := " selected=\"selected\" "

  const ValuePrefix := "<option value=\""

  const CloseTag := "</option>"

  /** The selected attribute, or nothing, in a rule's option. */
  function SelectedPart(rule: Rule, current: int): string {
    if current == rule.id then SelectedAttribute else ""
  }

  /** The start tag of a rule's option without its `>`: `<option value="%d" %s `. */
  function RuleOptionHead(rule: Rule, current: int): string {
    ValuePrefix + FormatInt(rule.id) + "\" " + SelectedPart(rule, current) + " "
  }

  /** The text of a rule's option: `%s (%s)` with its name and id. */
  function Caption(rule: Rule): string {
    rule.name + " (" + FormatInt(rule.id) + ")"
  }

  /**
    `sprintf('<option value="%d" %s >%s (%s)</option>', $id, $selected, $name, $id)`
    for one rule, written as its start tag, its text and its closing tag.
   */
  function RuleOption(rule: Rule, current: int): string {
    RuleOptionHead(rule, current) + ">" + Caption(rule) + CloseTag
  }

  /** The rules' options, one per rule, in the rules' order. */
  function RuleOptions(rules: seq<Rule>, current: int): (tags: seq<string>)
    ensures |tags| == |rules|
  {
    if rules == [] then []
    else RuleOptions(rules[..|rules| - 1], current) + [RuleOption(rules[|rules| - 1], current)]
  }

  /** The options in the order they are appended. */
  function OptionTags(rules: seq<Rule>, current: int): seq<string> {
    [NotSelectedOption] + RuleOptions(rules, current)
  }

  /** What an option reads back as: the rule's id, `name (id)`, and selected exactly for the current value. */
  predicate ReadsBackAs(tag: string, rule: Rule, current: int) {
    && OptionValue(tag) == Some(rule.id)
    && OptionLabel(tag) == Some(Caption(rule))
    && (Selected(tag) <==> rule.id == current)
  }

  /** Option `k` of the rules' options reads back as rule `k`. */
  lemma {:induction false} RuleOptionsReadBack(rules: seq<Rule>, current: int, k: nat)
    requires k < |rules|
    ensures ReadsBackAs(RuleOptions(rules, current)[k], rules[k], current)
    decreases |rules|
  {
    var n := |rules| - 1;
    if k < n {
      RuleOptionsPrefix(rules, current, k);
      RuleOptionsReadBack(rules[..n], current, k);
    } else {
      RuleOptionsLast(rules, current);
      RuleOptionReadsBack(rules[k], current);
    }
  }

  /** Below the last rule, the options are those of the shorter list. */
  lemma RuleOptionsPrefix(rules: seq<Rule>, current: int, k: nat)
    requires k < |rules| - 1
    ensures RuleOptions(rules, current)[k] == RuleOptions(rules[..|rules| - 1], current)[k]
    ensures rules[..|rules| - 1][k] == rules[k]
  {
  }

  /** The last option is the last rule's. */
  lemma RuleOptionsLast(rules: seq<Rule>, current: int)
    requires rules != []
    ensures RuleOptions(rules, current)[|rules| - 1] == RuleOption(rules[|rules| - 1], current)
  {
  }

  /** Option `i` after the leading one reads back as rule `i - 1`. */
  lemma OptionTagAt(rules: seq<Rule>, current: int, i: nat)
    requires 0 < i <= |rules|
    ensures |OptionTags(rules, current)| == |rules| + 1
    ensures ReadsBackAs(OptionTags(rules, current)[i], rules[i - 1], current)
  {
    var rest := RuleOptions(rules, current);
    assert OptionTags(rules, current)[i] == rest[i - 1];
    RuleOptionsReadBack(rules, current, i - 1);
  }

  /** The pieces of a string joined in order. */
  function Concat(parts: seq<string>): string {
    if parts == [] then [] else Concat(parts[..|parts| - 1]) + parts[|parts| - 1]
  }

  /**
    getBasketRuleOptionList: the leading option, then one option per
    collected rule.
   */
  method GetBasketRuleOptionList(current: int, rows: seq<DiscountRow>) returns (html: string)
    ensures html == Concat(OptionTags(RulesOf(rows), current))
  {
    var rules := GetBasketRules(rows);
    html := NotSelectedOption;
    OptionListStartsWithNotSelected(rules[..0], current);
    for i := 0 to |rules|
      invariant html == Concat(OptionTags(rules[..i], current))
    {
      OptionTagsExtend(rules, i, current);
      html := html + RuleOption(rules[i], current);
    }
    assert rules[..|rules|] == rules;
  }

  /** Appending one rule's option to the option list. */
  lemma OptionTagsExtend(rules: seq<Rule>, i: nat, current: int)
    requires i < |rules|
    ensures Concat(OptionTags(rules[..i + 1], current))
         == Concat(OptionTags(rules[..i], current)) + RuleOption(rules[i], current)
  {
    var before := OptionTags(rules[..i], current);
    var after := OptionTags(rules[..i + 1], current);
    OptionTagsSnoc(rules, i, current);
    ConcatSnoc(before, RuleOption(rules[i], current));
  }

  /** The option list of one more rule is the old list and that rule's option. */
  lemma OptionTagsSnoc(rules: seq<Rule>, i: nat, current: int)
    requires i < |rules|
    ensures OptionTags(rules[..i + 1], current) == OptionTags(rules[..i], current) + [RuleOption(rules[i], current)]
  {
    var prefix := rules[..i + 1];
    assert prefix[..i] == rules[..i];
    assert RuleOptions(prefix, current) == RuleOptions(rules[..i], current) + [RuleOption(rules[i], current)];
  }

  /** Joining one more piece appends it. */
  lemma ConcatSnoc(parts: seq<string>, x: string)
    ensures Concat(parts + [x]) == Concat(parts) + x
  {
    assert (parts + [x])[..|parts|] == parts;
  }

  // ---------------------------------------------------------------------
  // Reading an option back: its value, whether it is selected, its caption

  /** The first position of `c` in `s`, if any. */
  function IndexOf(s: string, c: char): (r: Option<nat>)
    ensures r.Some? ==> r.value < |s| && s[r.value] == c
  {
    if s == [] then None
    else if s[0] == c then Some(0)
    else match IndexOf(s[1..], c)
      case None => None
      case Some(k) => Some(k + 1)
  }

  /** The start tag of an element: everything up to and including the first `>`. */
  function StartTag(s: string): string {
    match IndexOf(s, '>')
    case Some(k) => s[..k + 1]
    case None => s
  }

  /** `pattern` occurs somewhere in `s` (PHP's strpos finds it). */
  predicate Contains(s: string, pattern: string)
    decreases |s|
  {
    (|pattern| <= |s| && s[..|pattern|] == pattern) || (s != [] && Contains(s[1..], pattern))
  }

  /** An option is selected when its start tag carries the selected attribute. */
  predicate Selected(option: string) {
    Contains(StartTag(option), "selected=\"selected\"")
  }

  /** The integer in an option's value attribute, if it opens with one. */
  function OptionValue(option: string): Option<int> {
    if |option| >= |ValuePrefix| && option[..|ValuePrefix|] == ValuePrefix then
      var rest := option[|ValuePrefix|..];
      match IndexOf(rest, '"')
      case Some(q) => ParseInt(rest[..q])
      case None => None
    else None
  }

  /** The text between an option's start tag and its closing tag. */
  function OptionLabel(option: string): Option<string> {
    var tag := StartTag(option);
    if |tag| + |CloseTag| <= |option| && option[|option| - |CloseTag|..] == CloseTag then
      Some(option[|tag|..|option| - |CloseTag|])
    else None
  }

  /** No character of `s` is `c`. */
  predicate Lacks(s: string, c: char) {
    forall j :: 0 <= j < |s| ==> s[j] != c
  }

  lemma LacksJoin(a: string, b: string, c: char)
    requires Lacks(a, c) && Lacks(b, c)
    ensures Lacks(a + b, c)
  {
    forall j | 0 <= j < |a + b| ensures (a + b)[j] != c {
      if j >= |a| {
        assert (a + b)[j] == b[j - |a|];
      }
    }
  }

  /** The scan for `c` stops at the first `c`. */
  lemma {:induction false} IndexOfAt(a: string, c: char, b: string)
    requires Lacks(a, c)
    ensures IndexOf(a + [c] + b, c) == Some(|a|)
    decreases |a|
  {
    var s := a + [c] + b;
    if a == [] {
      assert s[0] == c;
    } else {
      assert s[0] == a[0];
      assert s[1..] == a[1..] + [c] + b;
      IndexOfAt(a[1..], c, b);
    }
  }

  /** Text without the letter `s` cannot contain the selected attribute. */
  lemma {:induction false} NotContainsSelected(t: string)
    requires Lacks(t, 's')
    ensures !Contains(t, "selected=\"selected\"")
    decreases |t|
  {
    if t != [] {
      assert t[0] != 's';
      NotContainsSelected(t[1..]);
    }
  }

  /** A string contains whatever occurs in it after any prefix. */
  lemma {:induction false} ContainsAfter(pre: string, pattern: string, post: string)
    ensures Contains(pre + pattern + post, pattern)
    decreases |pre|
  {
    var s := pre + pattern + post;
    if pre == [] {
      assert s[..|pattern|] == pattern;
    } else {
      assert s[1..] == pre[1..] + pattern + post;
      ContainsAfter(pre[1..], pattern, post);
    }
  }

  /** An option laid out as start tag, text and closing tag reads back as that text. */
  lemma OptionLabelOf(head: string, text: string)
    requires Lacks(head, '>')
    ensures StartTag(head + ['>'] + text + CloseTag) == head + ['>']
    ensures OptionLabel(head + ['>'] + text + CloseTag) == Some(text)
  {
    var s := head + ['>'] + text + CloseTag;
    assert s == head + ['>'] + (text + CloseTag);
    IndexOfAt(head, '>', text + CloseTag);
    assert s[..|head| + 1] == head + ['>'];
    assert s[|s| - |CloseTag|..] == CloseTag;
    assert s[|head| + 1..|s| - |CloseTag|] == text;
  }

  /** The value attribute is read up to its closing quote. */
  lemma OptionValueOf(d: string, more: string)
    requires Lacks(d, '"')
    ensures OptionValue(ValuePrefix + d + ['"'] + more) == ParseInt(d)
  {
    var s := ValuePrefix + d + ['"'] + more;
    assert s[..|ValuePrefix|] == ValuePrefix;
    var rest := s[|ValuePrefix|..];
    assert rest == d + ['"'] + more;
    IndexOfAt(d, '"', more);
    assert rest[..|d|] == d;
  }

  /** The start tag of a rule's option has no `>` before its end. */
  lemma RuleOptionHeadLacks(rule: Rule, current: int)
    ensures Lacks(RuleOptionHead(rule, current), '>')
  {
    var d := FormatInt(rule.id);
    LacksJoin(ValuePrefix, d, '>');
    LacksJoin(ValuePrefix + d, "\" ", '>');
    LacksJoin(ValuePrefix + d + "\" ", SelectedPart(rule, current), '>');
    LacksJoin(ValuePrefix + d + "\" " + SelectedPart(rule, current), " ", '>');
  }

  /** A rule's option, split at the end of its start tag. */
  lemma RuleOptionAtTagEnd(rule: Rule, current: int)
    ensures RuleOption(rule, current)
         == RuleOptionHead(rule, current) + ['>'] + Caption(rule) + CloseTag
  {
  }

  /** A rule's option, split at the end of its value. */
  lemma RuleOptionAtValueEnd(rule: Rule, current: int)
    ensures RuleOption(rule, current)
         == ValuePrefix + FormatInt(rule.id) + ['"']
            + (" " + SelectedPart(rule, current) + " >" + Caption(rule) + CloseTag)
  {
    var d, sp, rest := FormatInt(rule.id), SelectedPart(rule, current), Caption(rule) + CloseTag;
    assert "\" " == ['"'] + " " && " " + ">" == " >";
    calc {
      RuleOption(rule, current);
      ValuePrefix + d + "\" " + sp + " " + ">" + rest;
      ValuePrefix + d + ['"'] + (" " + sp + (" " + ">") + rest);
    }
  }

  /** The start tag of a rule's option. */
  lemma RuleOptionStartTag(rule: Rule, current: int)
    ensures StartTag(RuleOption(rule, current)) == RuleOptionHead(rule, current) + ['>']
  {
    RuleOptionHeadLacks(rule, current);
    RuleOptionAtTagEnd(rule, current);
    OptionLabelOf(RuleOptionHead(rule, current), Caption(rule));
  }

  /** The option of the rule whose id is the current value carries the selected attribute. */
  lemma RuleOptionSelectedWhenCurrent(rule: Rule)
    ensures Selected(RuleOption(rule, rule.id))
  {
    RuleOptionStartTag(rule, rule.id);
    var pattern := "selected=\"selected\"";
    var pre := ValuePrefix + FormatInt(rule.id) + "\"  ";
    var tag := StartTag(RuleOption(rule, rule.id));
    assert SelectedAttribute == " " + pattern + " ";
    assert tag == pre + pattern + "  >";
    ContainsAfter(pre, pattern, "  >");
  }

  /** The option of a rule whose id is not the current value has no selected attribute. */
  lemma RuleOptionUnselectedOtherwise(rule: Rule, current: int)
    requires rule.id != current
    ensures !Selected(RuleOption(rule, current))
  {
    RuleOptionStartTag(rule, current);
    var d := FormatInt(rule.id);
    var tag := StartTag(RuleOption(rule, current));
    assert tag == ValuePrefix + d + "\"  >";
    LacksJoin(ValuePrefix, d, 's');
    LacksJoin(ValuePrefix + d, "\"  >", 's');
    NotContainsSelected(tag);
  }

  /** A rule's option carries the selected attribute exactly when its id is the current value. */
  lemma RuleOptionSelected(rule: Rule, current: int)
    ensures Selected(RuleOption(rule, current)) <==> rule.id == current
  {
    if rule.id == current {
      RuleOptionSelectedWhenCurrent(rule);
    } else {
      RuleOptionUnselectedOtherwise(rule, current);
    }
  }

  /** A rule's option reads back as its rule. */
  lemma RuleOptionReadsBack(rule: Rule, current: int)
    ensures ReadsBackAs(RuleOption(rule, current), rule, current)
  {
    RuleOptionContent(rule, current);
    RuleOptionSelected(rule, current);
  }

  /** A rule's option has the rule's id as its value and `name (id)` as its text. */
  lemma RuleOptionContent(rule: Rule, current: int)
    ensures OptionValue(RuleOption(rule, current)) == Some(rule.id)
    ensures OptionLabel(RuleOption(rule, current)) == Some(Caption(rule))
  {
    RuleOptionHeadLacks(rule, current);
    RuleOptionAtTagEnd(rule, current);
    RuleOptionAtValueEnd(rule, current);
    var d := FormatInt(rule.id);
    OptionLabelOf(RuleOptionHead(rule, current), Caption(rule));
    OptionValueOf(d, " " + SelectedPart(rule, current) + " >" + Caption(rule) + CloseTag);
    ParseFormatInt(rule.id);
  }

  /** The leading option, split at the end of its value. */
  lemma NotSelectedOptionAtValueEnd()
    ensures NotSelectedOption == ValuePrefix + "0" + ['"'] + (" >" + NotSelectedCaption + CloseTag)
  {
    assert "\" " == ['"'] + " " && " " + ">" == " >";
  }

  /** The start tag of the leading option has neither `>` nor the letter `s` before its end. */
  lemma NotSelectedHeadLacks()
    ensures Lacks(NotSelectedHead, '>') && Lacks(NotSelectedHead + ">", 's')
  {
    LacksJoin(ValuePrefix, "0", '>');
    LacksJoin(ValuePrefix + "0", "\" ", '>');
    LacksJoin(ValuePrefix, "0", 's');
    LacksJoin(ValuePrefix + "0", "\" ", 's');
    LacksJoin(NotSelectedHead, ">", 's');
  }

  /**
    The leading option has value 0. Here and in the next two lemmas the option
    is a parameter fixed by the requires, which keeps the solver from
    unfolding the literal wherever the lemma is used.
   */
  lemma NotSelectedOptionValue(option: string)
    requires option == NotSelectedOption
    ensures OptionValue(option) == Some(0)
  {
    NotSelectedOptionAtValueEnd();
    OptionValueOf("0", " >" + NotSelectedCaption + CloseTag);
    assert "0"[..0] == [];
  }

  /** The leading option reads "(не выбран)". */
  lemma NotSelectedOptionText(option: string)
    requires option == NotSelectedOption
    ensures StartTag(option) == NotSelectedHead + ">"
    ensures OptionLabel(option) == Some(NotSelectedCaption)
  {
    NotSelectedHeadLacks();
    OptionLabelOf(NotSelectedHead, NotSelectedCaption);
  }

  /** The leading option is never selected. */
  lemma NotSelectedOptionUnselected(option: string)
    requires option == NotSelectedOption
    ensures !Selected(option)
  {
    NotSelectedOptionText(option);
    NotSelectedHeadLacks();
    NotContainsSelected(StartTag(option));
  }

  /**
    The option list opens with the leading option: value 0, never selected,
    and then holds one option per rule.
   */
  lemma OptionTagsLeading(rules: seq<Rule>, current: int)
    ensures var tags := OptionTags(rules, current);
      && |tags| == |rules| + 1
      && tags[0] == NotSelectedOption
      && OptionValue(tags[0]) == Some(0) && !Selected(tags[0])
  {
    var tags := OptionTags(rules, current);
    NotSelectedOptionValue(tags[0]);
    NotSelectedOptionUnselected(tags[0]);
  }

  /**
    After the leading option come the rules' options, in the rules' order:
    option i reads back as rule i - 1, with its id as value and `name (id)`
    as text, and exactly those whose id is the current value are selected.
   */
  lemma OptionTagsRules(rules: seq<Rule>, current: int)
    ensures var tags := OptionTags(rules, current);
      && |tags| == |rules| + 1
      && (forall i :: 0 < i < |tags| ==> OptionValue(tags[i]) == Some(rules[i - 1].id))
      && (forall i :: 0 < i < |tags| ==> OptionLabel(tags[i]) == Some(Caption(rules[i - 1])))
      && (forall i :: 0 < i < |tags| ==> (Selected(tags[i]) <==> rules[i - 1].id == current))
  {
    var tags := OptionTags(rules, current);
    forall i | 0 < i < |tags| ensures ReadsBackAs(tags[i], rules[i - 1], current) {
      OptionTagAt(rules, current, i);
    }
  }

  /** Which option is selected: a rule's option whose id is the current value, never the leading one. */
  lemma OptionTagSelectedAt(rules: seq<Rule>, current: int, i: nat)
    requires i <= |rules|
    ensures Selected(OptionTags(rules, current)[i]) <==> 0 < i && Ids(rules)[i - 1] == current
  {
    var tags := OptionTags(rules, current);
    if i == 0 {
      NotSelectedOptionUnselected(tags[0]);
    } else {
      assert Ids(rules)[i - 1] == rules[i - 1].id;
      OptionTagAt(rules, current, i);
    }
  }

  /**
    With distinct rule ids at most one option is selected, and one is
    exactly when some rule has the current value as its id.
   */
  lemma OptionTagsSelection(rules: seq<Rule>, current: int)
    requires Distinct(Ids(rules))
    ensures var tags := OptionTags(rules, current);
      && (forall i, j :: 0 <= i < |tags| && 0 <= j < |tags| && Selected(tags[i]) && Selected(tags[j]) ==> i == j)
      && ((exists i :: 0 <= i < |tags| && Selected(tags[i])) <==> current in Ids(rules))
  {
    OptionTagsSelectedAt(rules, current);
    SelectionByIds(OptionTags(rules, current), Ids(rules), current);
  }

  /** Each option's selection, by position. */
  lemma OptionTagsSelectedAt(rules: seq<Rule>, current: int)
    ensures |OptionTags(rules, current)| == |Ids(rules)| + 1
    ensures forall i :: 0 <= i <= |rules| ==>
      (Selected(OptionTags(rules, current)[i]) <==> 0 < i && Ids(rules)[i - 1] == current)
  {
    forall i | 0 <= i <= |rules|
      ensures Selected(OptionTags(rules, current)[i]) <==> 0 < i && Ids(rules)[i - 1] == current
    {
      OptionTagSelectedAt(rules, current, i);
    }
  }

  /** Options selected exactly at the positions after the leading one whose id is `current`. */
  lemma SelectionByIds(tags: seq<string>, ids: seq<int>, current: int)
    requires |tags| == |ids| + 1 && Distinct(ids)
    requires forall i :: 0 <= i < |tags| ==> (Selected(tags[i]) <==> 0 < i && ids[i - 1] == current)
    ensures forall i, j :: 0 <= i < |tags| && 0 <= j < |tags| && Selected(tags[i]) && Selected(tags[j]) ==> i == j
    ensures (exists i :: 0 <= i < |tags| && Selected(tags[i])) <==> current in ids
  {
    if current in ids {
      var k :| 0 <= k < |ids| && ids[k] == current;
      assert Selected(tags[k + 1]);
    }
  }

  /**
    In the option list built from the rows at most one option is selected,
    and one is exactly when some row has the current value as its id.
   */
  lemma OptionListSelection(rows: seq<DiscountRow>, current: int)
    ensures var tags := OptionTags(RulesOf(rows), current);
      && (forall i, j :: 0 <= i < |tags| && 0 <= j < |tags| && Selected(tags[i]) && Selected(tags[j]) ==> i == j)
      && ((exists i :: 0 <= i < |tags| && Selected(tags[i])) <==> current in RowIds(rows))
  {
    RulesOfDistinct(rows);
    RulesOfIds(rows, current);
    OptionTagsSelection(RulesOf(rows), current);
  }

  /** The option list always starts with the leading option, even with no rules. */
  lemma {:induction false} OptionListStartsWithNotSelected(rules: seq<Rule>, current: int)
    ensures NotSelectedOption <= Concat(OptionTags(rules, current))
    ensures rules == [] ==> Concat(OptionTags(rules, current)) == NotSelectedOption
  {
    ConcatStartsWithFirst(OptionTags(rules, current));
  }

  lemma {:induction false} ConcatStartsWithFirst(parts: seq<string>)
    requires parts != []
    ensures parts[0] <= Concat(parts)
    ensures |parts| == 1 ==> Concat(parts) == parts[0]
  {
    if |parts| > 1 {
      ConcatStartsWithFirst(parts[..|parts| - 1]);
    }
  }

  /** The documented example: one rule `1 => RuleA` with current value 1. */
  lemma OptionListExample()
    ensures var tags := OptionTags(RulesOf([DiscountRow(1, "RuleA")]), 1);
      && |tags| == 2
      && OptionValue(tags[0]) == Some(0) && !Selected(tags[0])
      && OptionValue(tags[1]) == Some(1) && Selected(tags[1])
  {
    var rules := RulesOf([DiscountRow(1, "RuleA")]);
    assert rules == [Rule(1, "RuleA")];
    OptionTagsLeading(rules, 1);
    OptionTagsRules(rules, 1);
  }

  // ---------------------------------------------------------------------
  // The field

  /** The select element around the options, exactly as the source writes it. */
  function SelectMarkup(fieldName: string, options: string): string {
    "<select name=\"" + fieldName + " id=\"" + fieldName + "\"/>" + options + "</select>"
  }

  /**
    getPropertyFieldHtml: a select element named after the control's VALUE,
    holding the option list for the current value.
   */
  method GetPropertyFieldHtml(control: Base.Control, current: int, rows: seq<DiscountRow>)
    returns (html: string)
    ensures html == SelectMarkup(Base.Value(control), Concat(OptionTags(RulesOf(rows), current)))
  {
    var options := GetBasketRuleOptionList(current, rows);
    html := SelectMarkup(Base.Value(control), options);
  }

  /**
    Calling one of the optional callback methods directly on a basket-rule
    object: the field renderer answers, every other callback is the base
    class's default and raises NotImplementedMethod with its own name and
    this class. (Through the mapping the host reaches only the declared
    callback; an undeclared one it takes from its standard implementation.)
   */
  method Invoke(b: Base.Behaviour, control: Base.Control, current: int, rows: seq<DiscountRow>)
    returns (r: Base.Result<string>)
    ensures r.Err? <==> !Declares(b)
    ensures r.Err? ==> r.error == Base.NotImplementedMethod(Base.MethodName(b), ClassName)
    ensures r.Ok? ==> r.value == SelectMarkup(Base.Value(control), Concat(OptionTags(RulesOf(rows), current)))
  {
    UserTypeDescriptionOfBasketRule();
    if b == Base.GetPropertyFieldHtml {
      var html := GetPropertyFieldHtml(control, current, rows);
      r := Base.Ok(html);
    } else {
      r := Base.DefaultBehaviour(b, ClassName);
    }
  }
}
