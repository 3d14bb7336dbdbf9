/**
  The two anchored bracket patterns that recover a field name and a row key
  from the input-field name the host puts in a control's VALUE:

    form fill:   ^(PROP\[[^\]]+\])\[([^\]]+)\]
    admin list:  ^(FIELDS\[[^\]]+\]\[[^\]]+\])\[([^\]]+)\]

  Each is written as an explicit matcher over characters. A group
  `\[[^\]]+\]` is an opening bracket, a non-empty run of characters other
  than `]`, and the closing bracket. The run is greedy and must be followed
  by `]`, so it always ends at the first `]`: backtracking cannot give a
  second way to match, and the matchers below are deterministic.
 */
module FieldNamePatterns {

  import opened Options

  /** No closing bracket anywhere in `s`: the class `[^\]]`. */
  predicate NoClose(s: string) {
    forall i :: 0 <= i < |s| ==> s[i] != ']'
  }

  /** A run the class `[^\]]+` accepts: non-empty and free of `]`. */
  predicate BracketText(s: string) {
    s != [] && NoClose(s)
  }

  /** `t` between square brackets. */
  function Bracketed(t: string): string {
    "[" + t + "]"
  }

  /** The form-fill name `PROP[<id>]`. */
  function PropName(id: string): string {
    "PROP" + Bracketed(id)
  }

  /** The admin-list name `FIELDS[<x>][<y>]`. */
  function FieldsName(x: string, y: string): string {
    "FIELDS" + Bracketed(x) + Bracketed(y)
  }

  /** A name the form-fill pattern captures. */
  ghost predicate FormFillName(name: string) {
    exists id: string :: BracketText(id) && name == PropName(id)
  }

  /** A name the admin-list pattern captures. */
  ghost predicate AdminName(name: string) {
    exists x: string, y: string :: BracketText(x) && BracketText(y) && name == FieldsName(x, y)
  }

  /** The index of the first `]` at or after `i`, or `|s|` when there is none. */
  function RunEnd(s: string, i: nat): (j: nat)
    requires i <= |s|
    ensures i <= j <= |s|
    ensures NoClose(s[i..j])
    ensures j < |s| ==> s[j] == ']'
    decreases |s| - i
  {
    if i == |s| || s[i] == ']' then i
    else
      var j := RunEnd(s, i + 1);
      assert s[i..j] == [s[i]] + s[i + 1..j];
      j
  }

  /**
    One group `\[[^\]]+\]` starting at index `i`: the index just past its
    closing bracket, or None when the text at `i` is not such a group.
   */
  function Group(s: string, i: nat): (r: Option<nat>)
    requires i <= |s|
    ensures r.Some? ==> i + 3 <= r.value <= |s|
    ensures r.Some? ==> s[i] == '[' && s[r.value - 1] == ']'
    ensures r.Some? ==> BracketText(s[i + 1..r.value - 1])
  {
    if i < |s| && s[i] == '[' then
      var j := RunEnd(s, i + 1);
      if i + 1 < j < |s| then Some(j + 1) else None
    else None
  }

  /** `^(PROP\[[^\]]+\])\[([^\]]+)\]`: the captured name and key, or None. */
  function FormFillMatch(v: string): Option<(string, string)> {
    if |v| >= 4 && v[..4] == "PROP" then
      match Group(v, 4)
      case None => None
      case Some(a) =>
        match Group(v, a)
        case None => None
        case Some(b) => Some((v[..a], v[a + 1..b - 1]))
    else None
  }

  /** `^(FIELDS\[[^\]]+\]\[[^\]]+\])\[([^\]]+)\]`: the captured name and key, or None. */
  function AdminMatch(v: string): Option<(string, string)> {
    if |v| >= 6 && v[..6] == "FIELDS" then
      match Group(v, 6)
      case None => None
      case Some(a) =>
        match Group(v, a)
        case None => None
        case Some(b) =>
          match Group(v, b)
          case None => None
          case Some(c) => Some((v[..b], v[b + 1..c - 1]))
    else None
  }

  /** A recognised group is its text between brackets. */
  lemma GroupSplit(s: string, i: nat)
    requires i <= |s| && Group(s, i).Some?
    ensures s[i..Group(s, i).value] == Bracketed(s[i + 1..Group(s, i).value - 1])
  {
    var j := Group(s, i).value;
    var t := s[i + 1..j - 1];
    forall k | 0 <= k < j - i ensures s[i..j][k] == Bracketed(t)[k] {
      if 0 < k < j - i - 1 {
        assert Bracketed(t)[k] == t[k - 1];
      }
    }
  }

  /**
    Soundness of the form-fill matcher: what it captures is a name
    `PROP[<id>]` and a key free of `]`, and the value starts with the name
    followed by the bracketed key.
   */
  lemma FormFillMatchSound(v: string)
    ensures var r := FormFillMatch(v);
      r.Some? ==> FormFillName(r.value.0) && BracketText(r.value.1) && r.value.0 + Bracketed(r.value.1) <= v
  {
    if FormFillMatch(v).Some? {
      var a := Group(v, 4).value;
      var b := Group(v, a).value;
      GroupSplit(v, 4);
      GroupSplit(v, a);
      assert v[..a] == v[..4] + v[4..a];
      assert v[..a] == PropName(v[5..a - 1]);
      assert v[..b] == v[..a] + v[a..b];
    }
  }

  /**
    Soundness of the admin-list matcher: what it captures is a name
    `FIELDS[<x>][<y>]` and a key free of `]`, and the value starts with the
    name followed by the bracketed key.
   */
  lemma AdminMatchSound(v: string)
    ensures var r := AdminMatch(v);
      r.Some? ==> AdminName(r.value.0) && BracketText(r.value.1) && r.value.0 + Bracketed(r.value.1) <= v
  {
    if AdminMatch(v).Some? {
      var a := Group(v, 6).value;
      var b := Group(v, a).value;
      var c := Group(v, b).value;
      GroupSplit(v, 6);
      GroupSplit(v, a);
      GroupSplit(v, b);
      assert v[..b] == v[..6] + v[6..a] + v[a..b];
      assert v[..b] == FieldsName(v[7..a - 1], v[a + 1..b - 1]);
      assert v[..c] == v[..b] + v[b..c];
    }
  }

  /** The scan for `]` stops exactly at the end of a run free of `]`. */
  lemma {:induction false} RunEndAfter(s: string, i: nat, n: nat)
    requires i + n < |s|
    requires NoClose(s[i..i + n]) && s[i + n] == ']'
    ensures RunEnd(s, i) == i + n
    decreases n
  {
    if n > 0 {
      assert s[i] == s[i..i + n][0];
      assert s[i + 1..i + n] == s[i..i + n][1..];
      RunEndAfter(s, i + 1, n - 1);
    }
  }

  /** A well-formed group at index `i` is recognised, and ends where its text says. */
  lemma GroupAt(s: string, i: nat, t: string)
    requires BracketText(t)
    requires i + |t| + 2 <= |s|
    requires s[i..i + |t| + 2] == Bracketed(t)
    ensures Group(s, i) == Some(i + |t| + 2)
  {
    var w := s[i..i + |t| + 2];
    assert s[i] == w[0] == '[';
    assert w[1..|t| + 1] == t;
    assert s[i + 1..i + 1 + |t|] == t by {
      forall k | 0 <= k < |t| ensures s[i + 1 + k] == t[k] {
        assert s[i + 1 + k] == w[1 + k];
      }
    }
    assert s[i + 1 + |t|] == w[|t| + 1] == ']';
    RunEndAfter(s, i + 1, |t|);
  }

  /** Where the two groups of a form-fill value start and end. */
  predicate FormFillLayout(v: string, id: string, key: string) {
    var a := 4 + |id| + 2;
    && a + |key| + 2 <= |v|
    && v[..4] == "PROP"
    && v[4..a] == Bracketed(id)
    && v[a..a + |key| + 2] == Bracketed(key)
    && v[..a] == PropName(id)
    && v[a + 1..a + |key| + 1] == key
  }

  lemma FormFillValueLayout(id: string, key: string, rest: string)
    ensures FormFillLayout(PropName(id) + Bracketed(key) + rest, id, key)
  {
    var v := PropName(id) + Bracketed(key) + rest;
    var a := 4 + |id| + 2;
    assert v[..a] == PropName(id);
    assert v[a..a + |key| + 2] == Bracketed(key);
  }

  /** The form-fill matcher on a value laid out as two groups. */
  lemma FormFillMatchLayout(v: string, id: string, key: string)
    requires BracketText(id) && BracketText(key)
    requires FormFillLayout(v, id, key)
    ensures FormFillMatch(v) == Some((PropName(id), key))
  {
    var a := 4 + |id| + 2;
    GroupAt(v, 4, id);
    GroupAt(v, a, key);
  }

  /**
    Completeness of the form-fill matcher: every value that starts with
    `PROP[<id>][<key>]` is matched, with exactly that name and key,
    whatever follows.
   */
  lemma FormFillMatchComplete(id: string, key: string, rest: string)
    requires BracketText(id) && BracketText(key)
    ensures FormFillMatch(PropName(id) + Bracketed(key) + rest) == Some((PropName(id), key))
  {
    FormFillValueLayout(id, key, rest);
    FormFillMatchLayout(PropName(id) + Bracketed(key) + rest, id, key);
  }

  /** Where the three groups of an admin-list value start and end. */
  predicate AdminLayout(v: string, x: string, y: string, key: string) {
    var a := 6 + |x| + 2;
    var b := a + |y| + 2;
    && b + |key| + 2 <= |v|
    && v[..6] == "FIELDS"
    && v[6..a] == Bracketed(x)
    && v[a..b] == Bracketed(y)
    && v[b..b + |key| + 2] == Bracketed(key)
    && v[..b] == FieldsName(x, y)
    && v[b + 1..b + |key| + 1] == key
  }

  lemma AdminValueLayout(x: string, y: string, key: string, rest: string)
    ensures AdminLayout(FieldsName(x, y) + Bracketed(key) + rest, x, y, key)
  {
    var v := FieldsName(x, y) + Bracketed(key) + rest;
    var a := 6 + |x| + 2;
    var b := a + |y| + 2;
    assert v[..b] == FieldsName(x, y);
    assert v[b..b + |key| + 2] == Bracketed(key);
  }

  /** The admin-list matcher on a value laid out as three groups. */
  lemma AdminMatchLayout(v: string, x: string, y: string, key: string)
    requires BracketText(x) && BracketText(y) && BracketText(key)
    requires AdminLayout(v, x, y, key)
    ensures AdminMatch(v) == Some((FieldsName(x, y), key))
  {
    var a := 6 + |x| + 2;
    var b := a + |y| + 2;
    var c := b + |key| + 2;
    assert v[b + 1..c - 1] == key;
    GroupAt(v, 6, x);
    GroupAt(v, a, y);
    GroupAt(v, b, key);
    AdminMatchGroups(v, a, b, c);
  }

  /** The admin-list matcher once its three groups are found. */
  lemma AdminMatchGroups(v: string, a: nat, b: nat, c: nat)
    requires |v| >= 6 && v[..6] == "FIELDS"
    requires Group(v, 6) == Some(a) && a <= |v|
    requires Group(v, a) == Some(b) && b <= |v|
    requires Group(v, b) == Some(c)
    ensures AdminMatch(v) == Some((v[..b], v[b + 1..c - 1]))
  {
  }

  /**
    Completeness of the admin-list matcher: every value that starts with
    `FIELDS[<x>][<y>][<key>]` is matched, with exactly that name and key.
   */
  lemma AdminMatchComplete(x: string, y: string, key: string, rest: string)
    requires BracketText(x) && BracketText(y) && BracketText(key)
    ensures AdminMatch(FieldsName(x, y) + Bracketed(key) + rest) == Some((FieldsName(x, y), key))
  {
    AdminValueLayout(x, y, key, rest);
    AdminMatchLayout(FieldsName(x, y) + Bracketed(key) + rest, x, y, key);
  }

  /** A form-fill name is never an admin-list name, and the other way round. */
  lemma NamesDisjoint(name: string)
    ensures !(FormFillName(name) && AdminName(name))
  {
    if FormFillName(name) {
      var id :| BracketText(id) && name == PropName(id);
      forall x: string, y: string ensures name != FieldsName(x, y) {
        assert name[1] == PropName(id)[1] == 'R';
        assert FieldsName(x, y)[1] == 'I';
      }
    }
  }
}
