/** `XrpcConfig`: the `key=value` file parser and its lookup. */
module Config {
  import opened Common
  import opened Naming

  predicate IsBlank(c: char) {
    c == ' ' || c == '\t'
  }

  /** Space and tab are stripped, nothing else. */
  lemma BlankChars(c: char)
    ensures IsBlank(c) <==> c in " \t"
  {
  }

  predicate AllBlank(s: string) {
    forall i :: 0 <= i < |s| ==> IsBlank(s[i])
  }

  /** `erase(0, find_first_not_of(" \t"))`. */
  function TrimLeft(s: string): string {
    if s != "" && IsBlank(s[0]) then TrimLeft(s[1..]) else s
  }

  /** `erase(find_last_not_of(" \t") + 1)`. */
  function TrimRight(s: string): string {
    if s != "" && IsBlank(s[|s| - 1]) then TrimRight(s[..|s| - 1]) else s
  }

  lemma {:induction false} TrimLeftCuts(s: string) returns (a: string)
    ensures s == a + TrimLeft(s) && AllBlank(a)
    ensures TrimLeft(s) != "" ==> !IsBlank(TrimLeft(s)[0])
  {
    a := "";
    if s != "" && IsBlank(s[0]) {
      var a' := TrimLeftCuts(s[1..]);
      a := [s[0]] + a';
      assert s == [s[0]] + s[1..];
    }
  }

  lemma {:induction false} TrimRightCuts(s: string) returns (d: string)
    ensures s == TrimRight(s) + d && AllBlank(d)
    ensures TrimRight(s) != "" ==> !IsBlank(TrimRight(s)[|TrimRight(s)| - 1])
  {
    d := "";
    if s != "" && IsBlank(s[|s| - 1]) {
      var d' := TrimRightCuts(s[..|s| - 1]);
      d := d' + [s[|s| - 1]];
      assert s == s[..|s| - 1] + [s[|s| - 1]];
    }
  }

  function Trim(s: string): string {
    TrimRight(TrimLeft(s))
  }

  /** The key and value a line sets, if it sets any. */
  function ParseLine(line: string): Option<(string, string)> {
    if line == "" || line[0] == '#' then None
    else
      var t := Trim(line);
      match FindFrom(t, '=', 0)
      case None => None
      case Some(eq) =>
        var key, value := Trim(t[..eq]), Trim(t[eq + 1..]);
        if key == "" then None else Some((key, value))
  }

  // ---------- what a line means ----------

  predicate IsTrimmed(s: string) {
    s != "" ==> !IsBlank(s[0]) && !IsBlank(s[|s| - 1])
  }

  lemma {:induction false} TrimUnique(a: string, s: string, d: string)
    requires AllBlank(a) && IsTrimmed(s) && AllBlank(d)
    ensures Trim(a + s + d) == s
  {
    assert Trim("") == "";
    hide TrimLeft, TrimRight;
    TrimLeftPad(a, s + d);
    Associate(a, s, d);
    if s != "" {
      assert (s + d)[0] == s[0];
      TrimRightPad(s, d);
    } else {
      assert s + d == d + "";
      TrimLeftPad(d, "");
    }
  }

  lemma {:induction false} TrimLeftPad(a: string, s: string)
    requires AllBlank(a)
    ensures TrimLeft(a + s) == TrimLeft(s)
    ensures s != "" && !IsBlank(s[0]) ==> TrimLeft(a + s) == s
  {
    if a == "" {
      assert a + s == s;
    } else {
      assert (a + s)[1..] == a[1..] + s;
      TrimLeftPad(a[1..], s);
    }
  }

  lemma {:induction false} TrimRightPad(s: string, d: string)
    requires AllBlank(d) && s != "" && !IsBlank(s[|s| - 1])
    ensures TrimRight(s + d) == s
  {
    if d == "" {
      assert s + d == s;
    } else {
      assert (s + d)[..|s + d| - 1] == s + d[..|d| - 1];
      TrimRightPad(s, d[..|d| - 1]);
    }
  }

  lemma TrimParts(s: string) returns (a: string, d: string)
    ensures AllBlank(a) && AllBlank(d) && s == a + Trim(s) + d && IsTrimmed(Trim(s))
  {
    hide TrimLeft, TrimRight, AllBlank;
    a := TrimLeftCuts(s);
    d := TrimRightCuts(TrimLeft(s));
    assert Trim(s) != "" ==> Trim(s)[0] == TrimLeft(s)[0];
    Associate(a, Trim(s), d);
  }

  lemma Associate(a: string, b: string, c: string)
    ensures a + (b + c) == a + b + c
  {
  }

  /** One way to lay out an entry on a line, with blanks wherever they are allowed. */
  datatype Layout = Layout(
    before: string, key: string, beforeEq: string, afterEq: string, value: string, after: string) {
    function Line(): string {
      before + key + beforeEq + "=" + afterEq + value + after
    }

    /** The one blemish is a key starting with '#' in the first column: that is a comment. */
    predicate Valid() {
      && AllBlank(before) && AllBlank(beforeEq) && AllBlank(afterEq) && AllBlank(after)
      && key != "" && IsTrimmed(key) && '=' !in key && IsTrimmed(value)
      && !(before == "" && key[0] == '#')
    }
  }

  lemma Regroup(a: string, k: string, b: string, c: string, v: string, d: string)
    ensures a + k + b + "=" + c + v + d == a + (k + b + "=" + (c + v)) + d
    ensures v == "" ==> a + k + b + "=" + c + v + d == a + (k + b + "=" + "") + (c + d)
  {
  }

  lemma SplitAtEq(left: string, right: string)
    requires '=' !in left
    ensures var t := left + "=" + right;
      FindFrom(t, '=', 0) == Some(|left|) && t[..|left|] == left && t[|left| + 1..] == right
  {
    var t := left + "=" + right;
    assert t[0..|left|] == left;
    FirstIs(t, '=', 0, |left|);
  }

  lemma TrimKey(s: string, d: string)
    requires IsTrimmed(s) && AllBlank(d)
    ensures Trim(s + d) == s && Trim(d + s) == s
  {
    hide Trim, IsTrimmed;
    TrimUnique("", s, d);
    TrimUnique(d, s, "");
    assert "" + s + d == s + d;
    assert d + s + "" == d + s;
  }

  lemma LayoutParses(e: Layout)
    requires e.Valid()
    ensures ParseLine(e.Line()) == Some((e.key, e.value))
  {
    hide Trim, FindFrom, TrimLeft, TrimRight;
    Regroup(e.before, e.key, e.beforeEq, e.afterEq, e.value, e.after);
    var left := e.key + e.beforeEq;
    var right := if e.value == "" then "" else e.afterEq + e.value;
    TrimUnique(e.before, left + "=" + right, if e.value == "" then e.afterEq + e.after else e.after);
    SplitAtEq(left, right);
    TrimKey(e.key, e.beforeEq);
    TrimKey(e.value, if e.value == "" then "" else e.afterEq);
    assert e.value == "" ==> right == "" + e.value;
    assert e.Line()[0] == (e.before + e.key)[0] != '#';
    assert Trim(left) == e.key;
    assert Trim(right) == e.value;
    assert Trim(e.Line()) == left + "=" + right;
  }

  lemma RegroupParts(a: string, la: string, k: string, lb: string, ra: string, v: string, rb: string, d: string)
    ensures a + ((la + k + lb) + "=" + (ra + v + rb)) + d == (a + la) + k + lb + "=" + ra + v + (rb + d)
  {
  }

  lemma BlankPair(a: string, b: string)
    requires AllBlank(a) && AllBlank(b)
    ensures AllBlank(a + b)
  {
  }

  lemma CutAtEq(t: string) returns (left: string, right: string)
    requires FindFrom(t, '=', 0).Some?
    ensures var eq := FindFrom(t, '=', 0).value; left == t[..eq] && right == t[eq + 1..]
    ensures t == left + "=" + right && '=' !in left
  {
    var eq := FindFrom(t, '=', 0).value;
    left, right := t[..eq], t[eq + 1..];
    assert left == t[0..eq];
  }

  lemma ParsesLayout(line: string) returns (e: Layout)
    requires ParseLine(line).Some?
    ensures e.Valid() && e.Line() == line && (e.key, e.value) == ParseLine(line).value
  {
    hide Trim, FindFrom;
    var a, d := TrimParts(line);
    var left, right := CutAtEq(Trim(line));
    var la, lb := TrimParts(left);
    var ra, rb := TrimParts(right);
    var key, value := Trim(left), Trim(right);
    RegroupParts(a, la, key, lb, ra, value, rb, d);
    BlankPair(a, la);
    BlankPair(rb, d);
    e := Layout(a + la, key, lb, ra, value, rb + d);
    assert '=' !in key by {
      forall i | 0 <= i < |key| ensures key[i] != '=' {
        assert left[|la| + i] == key[i];
      }
    }
    assert e.before == "" ==> line[0] == key[0];
  }

  /** A line sets a key to a value exactly when it is some layout of that entry: blanks around key
      and value do not matter, the first '=' separates them, and later ones belong to the value. */
  lemma ParseLineMeaning(line: string, key: string, value: string)
    ensures ParseLine(line) == Some((key, value))
       <==> exists e: Layout :: e.Valid() && e.Line() == line && e.key == key && e.value == value
  {
    if ParseLine(line) == Some((key, value)) {
      var e := ParsesLayout(line);
    }
    forall e: Layout | e.Valid() && e.Line() == line && e.key == key && e.value == value
      ensures ParseLine(line) == Some((key, value))
    {
      LayoutParses(e);
    }
  }

  // ---------- whole files ----------

  /** What `std::getline` delivers: the pieces between newlines, without an empty last piece. */
  function Lines(text: string): seq<string>
    decreases |text|
  {
    if text == "" then []
    else
      match FindFrom(text, '\n', 0)
      case None => [text]
      case Some(end) => [text[..end]] + Lines(text[end + 1..])
  }

  function ApplyLines(m: map<string, string>, lines: seq<string>): map<string, string>
    decreases |lines|
  {
    if lines == [] then m
    else
      var entry := ParseLine(lines[0]);
      ApplyLines(if entry.Some? then m[entry.value.0 := entry.value.1] else m, lines[1..])
  }

  /** A line of a file as an author writes it. */
  datatype Item = Noise(line: string) | Entry(layout: Layout) {
    function Line(): string {
      if Noise? then line else layout.Line()
    }

    /** Noise is an empty or blank line, a comment, or any text without '='. */
    predicate Valid() {
      && '\n' !in Line()
      && (Noise? ==> AllBlank(line) || line[0] == '#' || '=' !in line)
      && (Entry? ==> layout.Valid())
    }
  }

  function Render(items: seq<Item>): string {
    if items == [] then "" else items[0].Line() + "\n" + Render(items[1..])
  }

  /** The value of the last entry with the key. */
  function LastValue(items: seq<Item>, key: string): Option<string> {
    if items == [] then None
    else
      var later := LastValue(items[1..], key);
      if later.None? && items[0].Entry? && items[0].layout.key == key then Some(items[0].layout.value) else later
  }

  lemma EntryIsNotNoise(line: string)
    requires ParseLine(line).Some?
    ensures !AllBlank(line) && line[0] != '#' && '=' in line
  {
    hide Trim, FindFrom;
    var e := ParsesLayout(line);
    assert line[|e.before|] == e.key[0];
    assert line[|e.before + e.key + e.beforeEq|] == '=';
  }

  lemma FirstLine(line: string, rest: string)
    requires '\n' !in line
    ensures Lines(line + "\n" + rest) == [line] + Lines(rest)
  {
    var text := line + "\n" + rest;
    assert text[0..|line|] == line;
    FirstIs(text, '\n', 0, |line|);
    assert text[|line| + 1..] == rest;
  }

  lemma {:induction false} LinesOfRender(items: seq<Item>)
    requires forall i :: 0 <= i < |items| ==> items[i].Valid()
    ensures Lines(Render(items)) == seq(|items|, i requires 0 <= i < |items| => items[i].Line())
  {
    hide Item.Line, FindFrom;
    if items != [] {
      LinesOfRender(items[1..]);
      FirstLine(items[0].Line(), Render(items[1..]));
    }
  }

  /** The same without a newline at the end. */
  function Open(items: seq<Item>): string
    requires items != []
  {
    if |items| == 1 then items[0].Line() else items[0].Line() + "\n" + Open(items[1..])
  }

  lemma LastLine(line: string)
    requires '\n' !in line && line != ""
    ensures Lines(line) == [line]
  {
    assert line[0..] == line;
  }

  /** A last line that does not end in a newline is a line like any other. */
  lemma {:induction false} LinesOfOpen(items: seq<Item>)
    requires items != [] && (forall i :: 0 <= i < |items| ==> items[i].Valid())
    requires items[|items| - 1].Line() != ""
    ensures Lines(Open(items)) == seq(|items|, i requires 0 <= i < |items| => items[i].Line())
    decreases |items|
  {
    hide Item.Line, FindFrom;
    if |items| == 1 {
      LastLine(items[0].Line());
    } else {
      LinesOfOpen(items[1..]);
      FirstLine(items[0].Line(), Open(items[1..]));
    }
  }

  lemma {:induction false} ApplyRendered(m: map<string, string>, items: seq<Item>, lines: seq<string>, key: string)
    requires forall i :: 0 <= i < |items| ==> items[i].Valid()
    requires |lines| == |items| && forall i :: 0 <= i < |items| ==> lines[i] == items[i].Line()
    ensures var r, last := ApplyLines(m, lines), LastValue(items, key);
      && (key in r <==> last.Some? || key in m)
      && (key in r ==> r[key] == if last.Some? then last.value else m[key])
    decreases |items|
  {
    hide ParseLine, Layout.Line;
    if items != [] {
      match items[0] {
        case Noise(line) =>
          if ParseLine(line).Some? {
            EntryIsNotNoise(line);
          }
          ApplyRendered(m, items[1..], lines[1..], key);
        case Entry(e) =>
          LayoutParses(e);
          ApplyRendered(m[e.key := e.value], items[1..], lines[1..], key);
      }
    }
  }

  // ---------- the config object ----------

  class XrpcConfig {
    var configMap: map<string, string>

    constructor ()
      ensures configMap == map[]
    {
      configMap := map[];
    }

    /** `file` is None when it cannot be opened. */
    method Load(file: Option<string>) returns (ok: bool)
      modifies this
      ensures ok <==> file.Some?
      ensures configMap == if file.Some? then ApplyLines(old(configMap), Lines(file.value)) else old(configMap)
    {
      if file.None? {
        return false;
      }
      var text := file.value;
      while text != ""
        invariant ApplyLines(configMap, Lines(text)) == ApplyLines(old(configMap), Lines(file.value))
        decreases |text|
      {
        var line;
        ghost var lines := Lines(text);
        match FindFrom(text, '\n', 0) {
          case None => line, text := text, "";
          case Some(end) => line, text := text[..end], text[end + 1..];
        }
        assert lines == [line] + Lines(text);
        if line == "" || line[0] == '#' {
          continue;
        }
        var trimmed := TrimRight(TrimLeft(line));
        if trimmed == "" {
          continue;
        }
        var eq := FindFrom(trimmed, '=', 0);
        if eq.None? {
          continue;
        }
        var key, value := trimmed[..eq.value], trimmed[eq.value + 1..];
        key := TrimLeft(key);
        key := TrimRight(key);
        value := TrimLeft(value);
        value := TrimRight(value);
        if key != "" {
          configMap := configMap[key := value];
        }
      }
      return true;
    }

    function Get(key: string, defaultValue: string): string
      reads this
    {
      if key in configMap then configMap[key] else defaultValue
    }
  }

  /** Loading any rendering of a list of entries, with or without a newline at the end, makes `Get`
      answer the last value of each key, and the default for every other key. */
  method LoadRendered(items: seq<Item>, closed: bool, key: string, defaultValue: string) returns (value: string)
    requires forall i :: 0 <= i < |items| ==> items[i].Valid()
    requires closed || (items != [] && items[|items| - 1].Line() != "")
    ensures value == match LastValue(items, key) { case Some(v) => v case None => defaultValue }
  {
    var config := new XrpcConfig();
    var text := if closed then Render(items) else Open(items);
    var ok := config.Load(Some(text));
    if closed {
      LinesOfRender(items);
    } else {
      LinesOfOpen(items);
    }
    ApplyRendered(map[], items, Lines(text), key);
    value := config.Get(key, defaultValue);
  }
}
