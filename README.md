# Bitrix iblock property types: the base contract and the basket-rule type

This project models two pieces of a PHP extension for the Bitrix CMS catalog module (the "iblock" module):

- `IblockPropertyTypeBase` is the abstract base of every custom iblock property type. It supplies:
  - the control-mode tags and storage-kind constants;
  - `getControlMode`, which classifies the `MODE` of a control descriptor;
  - `parseNameAndKeyFromControl`, which recovers a field name and a row key from the input-field name in `VALUE`;
  - its inverse, `convertControlFromMultiToSingle`;
  - `getUserTypeDescription`, the capability description handed to the host;
  - the parameter list of `getIblockElementSearchPopupJS`;
  - the optional callbacks, each of which by default throws `NotImplementedMethodException` with its own name.
- `BasketRuleType` is a string-stored property whose admin field is a `<select>` over the basket (discount) rules. It has a leading "(не выбран)" option of value 0, and the option of the stored rule is marked selected.

The Dafny modules follow the two source files:

| module | file | models |
|---|---|---|
| `Options` | `options.dfy` | the `Option` type |
| `Decimal` | `decimal.dfy` | `sprintf('%d')` of an integer and reading it back |
| `FieldNamePatterns` | `field_name_patterns.dfy` | the two anchored bracket regexes, as deterministic matchers |
| `IblockPropertyTypeBase` | `iblock_property_type_base.dfy` | the base class |
| `BasketRuleType` | `basket_rule_type.dfy` | the basket-rule type |

How PHP constructs are represented:

- **PHP arrays with string keys.** A control descriptor is a `map<string, string>`. A missing `VALUE` reads as the empty string, as PHP's null does in a string context. The exception receives the raw `MODE`, so a missing `MODE` becomes `None`.
- **Ordered arrays whose order matters.** These are sequences of pairs. This covers the popup parameters and the rules collected from the discount table.
  - Assigning `$result[$id] = $name` to an id that is already present replaces the name in place.
  - A new id goes to the end.
- **Exceptions.** They are a `Result` whose `Err` carries `NotImplementedMethod(method, class)` or `UnsupportedControlMode(mode)`.
- **The discount table.** Its rows are a parameter.
- **The two loops of `BasketRuleType`.** Both are methods with loop invariants, proved against fold functions:
  - `getBasketRules`, the rows-to-array fill;
  - `getBasketRuleOptionList`, the `$html .=` append.

The option markup is read back by small readers: the start tag, whether it contains `selected="selected"`, the integer in the value attribute, and the text between the tags. This lets the properties of the option list be stated about the HTML itself. The `<select>` wrapper is modelled exactly as the source writes it: `<select name="V id="V"/>` followed by the options and `</select>`. That markup is malformed. The quote after the name is never closed, so the name attribute swallows ` id=`. The `/>` is ignored by HTML parsers, so the options stay inside the select.

## Model

The table lists the members whose contracts state something. Several functions model source lines directly but carry no contract of their own. Their properties are the lemmas about them:
- `FieldNamePatterns.FormFillMatch` and `AdminMatch`: the `Sound` and `Complete` lemmas.
- `BasketRuleType.Put`: `PutFind` and `PutIds`.
- `BasketRuleType.RulesOf`: the `RulesOf*` lemmas and `GetBasketRules`.
- `IblockPropertyTypeBase.PopupSearchParams`: the three `PopupSearchParams*` lemmas.
- `IblockPropertyTypeBase.MethodName`: `BehaviourNamedMethodName` and `MethodNamesDistinct`.
- `BasketRuleType.RuleOption` and `OptionTags`: `RuleOptionSelected`, `RuleOptionContent` and the `OptionTags*` lemmas.
- `BasketRuleType.SelectMarkup`: `GetPropertyFieldHtml`.

| member | source | states |
|---|---|---|
| IblockPropertyTypeBase.ControlMode | src/main/Abstraction/IblockPropertyTypeBase.php:118-135 | without MODE the mode is `''`. Otherwise it is MODE when MODE is EDIT_FORM, FORM_FILL or iblock_element_admin, and `''` for anything else. The result is always one of those four strings |
| IblockPropertyTypeBase.ParseNameAndKey | src/main/Abstraction/IblockPropertyTypeBase.php:145-169 | a success happens only in FORM_FILL mode with a `PROP[<id>]` name, or in iblock_element_admin mode with a `FIELDS[<x>][<y>]` name. The key is a non-empty run free of `]`, and name + `[key]` is a prefix of VALUE. Every failure is UnsupportedControlMode carrying the raw MODE. Every other mode, EDIT_FORM included, fails |
| IblockPropertyTypeBase.ParseFormFill | src/main/Abstraction/IblockPropertyTypeBase.php:151-156 | in FORM_FILL mode, a VALUE starting with `PROP[<id>][<key>]` parses to (`PROP[<id>]`, key), whatever follows |
| IblockPropertyTypeBase.ParseAdmin | src/main/Abstraction/IblockPropertyTypeBase.php:161-166 | in iblock_element_admin mode, a VALUE starting with `FIELDS[<x>][<y>][<key>]` parses to (`FIELDS[<x>][<y>]`, key), whatever follows |
| IblockPropertyTypeBase.ParseFormFillExample | src/main/Abstraction/IblockPropertyTypeBase.php:148-156 | `PROP[111][69516][VALUE]` gives (`PROP[111]`, `69516`) |
| IblockPropertyTypeBase.ParseAdminExample | src/main/Abstraction/IblockPropertyTypeBase.php:158-166 | `FIELDS[7234][PROPERTY_111][69516][VALUE]` gives (`FIELDS[7234][PROPERTY_111]`, `69516`) |
| IblockPropertyTypeBase.ParseBadValueExample | src/main/Abstraction/IblockPropertyTypeBase.php:151-168 | a FORM_FILL control whose VALUE fits no pattern throws UnsupportedControlMode with mode FORM_FILL |
| IblockPropertyTypeBase.ConvertControlFromMultiToSingle | src/main/Abstraction/IblockPropertyTypeBase.php:180-197 | VALUE becomes old VALUE + `[key][VALUE]`. DESCRIPTION becomes old VALUE + `[key][DESCRIPTION]`. Every other key is kept, and no other key is added |
| IblockPropertyTypeBase.ConvertThenParseFormFill | src/main/Abstraction/IblockPropertyTypeBase.php:145-197 | round trip: converting a FORM_FILL control named `PROP[<id>]` for row key k and parsing the result gives back (the name, k) |
| IblockPropertyTypeBase.ConvertThenParseAdmin | src/main/Abstraction/IblockPropertyTypeBase.php:145-197 | the same round trip for an admin-list control named `FIELDS[<x>][<y>]` |
| IblockPropertyTypeBase.ConvertExample | src/main/Abstraction/IblockPropertyTypeBase.php:180-197 | `PROP[111]` with key 5 becomes `PROP[111][5][VALUE]` and `PROP[111][5][DESCRIPTION]` |
| IblockPropertyTypeBase.UserTypeDescription | src/main/Abstraction/IblockPropertyTypeBase.php:52-62 | the keys are PROPERTY_TYPE, USER_TYPE and DESCRIPTION plus the mapping's keys. Every mapping entry is kept as given, so it overrides a fixed key of the same name. Each fixed key not overridden holds its own value |
| IblockPropertyTypeBase.DefaultUserType | src/main/Abstraction/IblockPropertyTypeBase.php:94-97 | by default the user type is the implementing class's own name |
| IblockPropertyTypeBase.Unset | src/main/Abstraction/IblockPropertyTypeBase.php:229-231 | after unsetting a key, no entry carries that key |
| IblockPropertyTypeBase.UnsetMembers | src/main/Abstraction/IblockPropertyTypeBase.php:229-231 | unsetting keeps exactly the entries that do not carry the key |
| IblockPropertyTypeBase.UnsetAppend | src/main/Abstraction/IblockPropertyTypeBase.php:229-231 | unsetting works entry by entry. Unsetting a joined list joins the two unset parts, so the entries that stay keep their order |
| IblockPropertyTypeBase.UnsetAbsent | src/main/Abstraction/IblockPropertyTypeBase.php:229-231 | unsetting a key that no entry carries changes nothing |
| IblockPropertyTypeBase.PopupSearchParamsWithIblock | src/main/Abstraction/IblockPropertyTypeBase.php:222-231 | with a positive iblock id the parameters are lang, IBLOCK_ID, n, k, iblockfix in that order, and each holds its own argument |
| IblockPropertyTypeBase.PopupSearchParamsWithoutIblock | src/main/Abstraction/IblockPropertyTypeBase.php:222-231 | with an iblock id ≤ 0, IBLOCK_ID is absent. The others stay in order: lang, n, k, iblockfix |
| IblockPropertyTypeBase.PopupSearchParamsDefaultCall | src/main/Abstraction/IblockPropertyTypeBase.php:213-231 | a call with only a name and a key uses the defaults iblock id 0 and iblockfix `'y'`: IBLOCK_ID is absent and the parameters are lang, n, k, iblockfix=y in that order |
| IblockPropertyTypeBase.BehaviourNamed | src/main/Abstraction/IblockPropertyTypeBase.php:244-351 | a method name that denotes a callback denotes the callback with exactly that name |
| IblockPropertyTypeBase.BehaviourNamedMethodName | src/main/Abstraction/IblockPropertyTypeBase.php:244-351 | every optional callback is recovered from its method name |
| IblockPropertyTypeBase.DefaultBehaviour | src/main/Abstraction/IblockPropertyTypeBase.php:244-351 | every default callback throws NotImplementedMethod with the concrete class. Its method name identifies that very callback |
| IblockPropertyTypeBase.MethodNamesDistinct | src/main/Abstraction/IblockPropertyTypeBase.php:244-351 | distinct callbacks carry distinct method names |
| FieldNamePatterns.Group | src/main/Abstraction/IblockPropertyTypeBase.php:153 | a recognised group `\[[^\]]+\]` starts with `[`, ends with `]` and encloses a non-empty run free of `]` |
| FieldNamePatterns.FormFillMatchSound | src/main/Abstraction/IblockPropertyTypeBase.php:153 | whatever the form-fill pattern captures is a name `PROP[<id>]` and a key free of `]`, and VALUE starts with name + `[key]` |
| FieldNamePatterns.FormFillMatchComplete | src/main/Abstraction/IblockPropertyTypeBase.php:153 | every value starting with `PROP[<id>][<key>]` matches, capturing exactly that name and key |
| FieldNamePatterns.AdminMatchSound | src/main/Abstraction/IblockPropertyTypeBase.php:163 | whatever the admin-list pattern captures is a name `FIELDS[<x>][<y>]` and a key free of `]`, and VALUE starts with name + `[key]` |
| FieldNamePatterns.AdminMatchComplete | src/main/Abstraction/IblockPropertyTypeBase.php:163 | every value starting with `FIELDS[<x>][<y>][<key>]` matches, capturing exactly that name and key |
| FieldNamePatterns.NamesDisjoint | src/main/Abstraction/IblockPropertyTypeBase.php:151-166 | no name fits both patterns |
| BasketRuleType.PropertyType | src/main/BasketRuleType.php:24-27 | values are stored as the string kind `S`, one of the six storage kinds |
| BasketRuleType.UserType | src/main/BasketRuleType.php:63-66 | the user type is `basket_rule`, which differs from the class-name default |
| BasketRuleType.CallbacksMapping | src/main/BasketRuleType.php:40-48 | the mapping has the single key GetPropertyFieldHtml, bound to this class's getPropertyFieldHtml |
| BasketRuleType.UserTypeDescriptionOfBasketRule | src/main/BasketRuleType.php:24-66 | the description handed to the host holds PROPERTY_TYPE `S`, USER_TYPE `basket_rule`, the caption and the field renderer. A callback is declared if and only if it is GetPropertyFieldHtml |
| BasketRuleType.Find | src/main/BasketRuleType.php:104 | an id has an entry in the collected array exactly when it is one of its ids |
| BasketRuleType.PutFind | src/main/BasketRuleType.php:104 | after `$result[$id] = $name` the id holds the new name, and every other id keeps what it held |
| BasketRuleType.PutIds | src/main/BasketRuleType.php:104 | the assignment keeps the ids and their order. An id not present before is appended |
| BasketRuleType.RulesOfFind | src/main/BasketRuleType.php:101-107 | each id holds the name of the last row with that id |
| BasketRuleType.RulesOfDistinct | src/main/BasketRuleType.php:101-107 | no id appears twice among the collected rules |
| BasketRuleType.RulesOfIds | src/main/BasketRuleType.php:101-107 | an id has an entry exactly when some row carries it |
| BasketRuleType.RulesOfOrder | src/main/BasketRuleType.php:101-107 | the entries appear in the order in which their ids first occur among the rows |
| BasketRuleType.GetBasketRules | src/main/BasketRuleType.php:96-108 | the loop builds the fold of the rows: distinct ids, each holding the name of the last row with that id |
| BasketRuleType.GetBasketRuleOptionList | src/main/BasketRuleType.php:74-90 | the loop's text is the leading option followed by one option per collected rule, in order |
| BasketRuleType.OptionListStartsWithNotSelected | src/main/BasketRuleType.php:76 | the option list always starts with the leading option. With no rules it is exactly that option |
| BasketRuleType.NotSelectedOptionValue | src/main/BasketRuleType.php:76 | the leading option has value 0 |
| BasketRuleType.NotSelectedOptionText | src/main/BasketRuleType.php:76 | the leading option reads "(не выбран)" |
| BasketRuleType.NotSelectedOptionUnselected | src/main/BasketRuleType.php:76 | the leading option is never selected |
| BasketRuleType.OptionTagsLeading | src/main/BasketRuleType.php:76-87 | there is one option more than there are rules. The first is the leading option, with value 0 and not selected |
| BasketRuleType.OptionTagsRules | src/main/BasketRuleType.php:78-87 | every option i after the leading one belongs to rule i − 1. Its value is the rule's id, its text is `name (id)`, and it is selected if and only if the id is the current value |
| BasketRuleType.RuleOptionSelected | src/main/BasketRuleType.php:80-86 | a rule's option carries `selected="selected"` if and only if its id equals the current value |
| BasketRuleType.RuleOptionContent | src/main/BasketRuleType.php:80-86 | a rule's option reads back with the rule's id as its value and `name (id)` as its text |
| BasketRuleType.OptionTagSelectedAt | src/main/BasketRuleType.php:76-87 | the option at position i is selected exactly when i > 0 and rule i−1 has the current value as its id |
| BasketRuleType.OptionTagsSelection | src/main/BasketRuleType.php:78-87 | with distinct rule ids at most one option is selected. One is selected if and only if some rule's id is the current value |
| BasketRuleType.OptionListSelection | src/main/BasketRuleType.php:74-108 | in the option list built from the table's rows at most one option is selected. One is selected if and only if some row's id is the current value |
| BasketRuleType.OptionListExample | src/main/BasketRuleType.php:74-90 | one rule `1 => RuleA` with current value 1 gives two options. The first has value 0 and is unselected; the second has value 1 and is selected |
| BasketRuleType.GetPropertyFieldHtml | src/main/BasketRuleType.php:54-58 | the field is the select element named after the control's VALUE, around the option list for the stored value |
| BasketRuleType.Invoke | src/main/BasketRuleType.php:40-58 | calling one of the optional callback methods directly on a BasketRuleType object. getPropertyFieldHtml returns the field markup. Every other method is the base class's default and throws NotImplementedMethod with its own name and this class. So exactly the methods the mapping leaves out throw. Through the mapping the host never calls those: it replaces them with the iblock module's standard implementation |
| Decimal.FormatInt | src/main/BasketRuleType.php:80-86 | `%d` writes a non-empty run of digits, with a minus sign only in front |
| Decimal.FormatIntCanonical | src/main/BasketRuleType.php:80-86 | the `%d` text is canonical. A minus sign appears exactly for a negative number. There is no leading zero: "0" is the only text that starts with '0', and no text starts with "-0" |
| Decimal.NatDigitsCanonical | src/main/BasketRuleType.php:80-86 | the digits of a natural number start with '0' only for 0 itself, and then are exactly "0" |
| Decimal.ParseFormatInt | src/main/BasketRuleType.php:80-86 | the text `%d` writes for an id reads back as that id |

## Left out

- `init`: it registers an event handler with the host (`AddEventHandler`) and has no behaviour of its own.
- The discount-table query (`DiscountTable::getList`, `fetchAll`): the host's database. The rows are a parameter.
- `getIblockElementSearchPopupJS`: only its parameter list is modelled. The URL encoding (`http_build_query`, `htmlentities`) and the `jsUtils.OpenWindow(...)` text with width and height (defaults 900 and 700) are library formatting. The language is always a parameter, because its default `LANGUAGE_ID` is a host constant; the iblock id (default 0) and the fix flag (default `'y'`) keep their defaults.
- PCRE in general: only the two fixed patterns are modelled, as explicit matchers.
- PHP loose comparison: `in_array` at line 130 of the base class and `$currentValue == $id` compare loosely. The model treats modes as strings and ids and the stored value as integers, compared exactly. A non-numeric stored value, which PHP would still compare loosely with an id, is not modelled.
- `static::class` is a string: a parameter in the base class, and a constant naming the basket-rule class.
- `getDescription` is modelled as a constant and carries no contract of its own. Its value appears in `UserTypeDescriptionOfBasketRule`.
- `UserTypeDescription`: the order of keys in the merged array is not modelled (a map is unordered). The host reads the description by key. `array_merge` also renumbers integer keys: a mapping key such as "5" would become the integer 5 and be re-indexed. The model keeps every key as a string. This does not matter for callback names, which are never numeric.
- Ids are printed once with `%d` and once with `%s`. Both are modelled as the decimal text of the integer id, which matches the database's canonical integer text.
- HTML escaping: the source does not escape rule names or the field name, and neither does the model.
