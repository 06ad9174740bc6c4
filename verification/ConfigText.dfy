/** The text layer of configurations: lines, attributes and lists, as
    tunnel/src/main/java/com/wireguard/config/Attribute.java and Config.java read and write them. */
module ConfigText {
  import opened Wrappers

  // ---- Characters ----

  /** \s and \w. */
  predicate Space(c: char) { c == ' ' || 9 as char <= c <= 13 as char }

  predicate Word(c: char) { 'a' <= c <= 'z' || 'A' <= c <= 'Z' || '0' <= c <= '9' || c == '_' }

  /** What String.trim removes. */
  predicate Low(c: char) { c <= ' ' }

  // ---- Runs ----

  function Run(p: char -> bool, s: string): (n: nat)
    ensures n <= |s| && (forall k :: 0 <= k < n ==> p(s[k])) && (n < |s| ==> !p(s[n]))
  {
    if s == "" || !p(s[0]) then 0 else 1 + Run(p, s[1..])
  }

  lemma RunIs(p: char -> bool, s: string, n: nat)
    requires n <= |s| && (forall k :: 0 <= k < n ==> p(s[k])) && (n < |s| ==> !p(s[n]))
    ensures Run(p, s) == n
  {
  }

  function Index(s: string, c: char): (n: nat)
    ensures n <= |s| && c !in s[..n] && (n < |s| ==> s[n] == c)
  {
    Run(x => x != c, s)
  }

  // ---- Lines ----

  function TrimEnd(s: string): string { if s != "" && Low(s[|s| - 1]) then TrimEnd(s[..|s| - 1]) else s }

  function Trim(s: string): string { TrimEnd(s[Run(Low, s)..]) }

  /** A line without its comment and without blanks around it. */
  function CleanLine(s: string): string { Trim(s[..Index(s, '#')]) }

  /** Nothing to strip. */
  predicate Tidy(s: string) { s != "" && !Low(s[0]) && !Low(s[|s| - 1]) && '#' !in s }

  lemma TidyIsClean(s: string)
    requires Tidy(s)
    ensures CleanLine(s) == s
  {
    RunIs(x => x != '#', s, |s|);
    assert Index(s, '#') == |s|;
    assert s[..|s|] == s;
    RunIs(Low, s, 0);
    assert s[0..] == s;
  }

  /** BufferedReader.readLine until the end. */
  function ReadLines(text: string): seq<string>
    decreases |text|
  {
    if text == "" then []
    else
      var n := Run(c => c != '\n' && c != '\r', text);
      if n == |text| then [text]
      else if text[n] == '\r' && n + 1 < |text| && text[n + 1] == '\n' then [text[..n]] + ReadLines(text[n + 2..])
      else [text[..n]] + ReadLines(text[n + 1..])
  }

  function Unlines(lines: seq<string>): string {
    if lines == [] then "" else lines[0] + "\n" + Unlines(lines[1..])
  }

  predicate OneLine(s: string) { '\n' !in s && '\r' !in s }

  lemma {:induction false} ReadUnlines(lines: seq<string>)
    requires forall k :: 0 <= k < |lines| ==> OneLine(lines[k])
    ensures ReadLines(Unlines(lines)) == lines
  {
    hide Run;
    if lines != [] {
      ReadUnlines(lines[1..]);
      var l, rest := lines[0], Unlines(lines[1..]);
      var text := l + "\n" + rest;
      assert text == Unlines(lines);
      forall k | 0 <= k < |l| ensures text[k] != '\n' && text[k] != '\r' {
        assert text[k] == l[k];
        assert l[k] in l;
      }
      RunIs(c => c != '\n' && c != '\r', text, |l|);
      assert text[..|l|] == l && text[|l| + 1..] == rest;
      assert lines == [l] + lines[1..];
    }
  }

  // ---- Attribute.parse: (\w+)\s*=\s*([^\s#][^#]*) ----

  function ParseAttribute(line: string): Option<(string, string)> {
    var k := Run(Word, line);
    var e := k + Run(Space, line[k..]);
    if k == 0 || e == |line| || line[e] != '=' then None
    else
      var v := e + 1 + Run(Space, line[e + 1..]);
      if v == |line| || '#' in line[v..] then None else Some((line[..k], line[v..]))
  }

  predicate WordText(s: string) { s != "" && forall k :: 0 <= k < |s| ==> Word(s[k]) }

  /** What a value may look like to survive. */
  predicate ValueText(s: string) { Tidy(s) && OneLine(s) && !Space(s[0]) }

  function AttributeLine(name: string, value: string): string { name + " = " + value }

  lemma ParseAttributeLine(name: string, value: string)
    requires WordText(name) && ValueText(value)
    ensures ParseAttribute(AttributeLine(name, value)) == Some((name, value))
  {
    hide Run;
    var line, k := AttributeLine(name, value), |name|;
    assert line == name + (" = " + value);
    RunIs(Word, line, k);
    assert line[k..] == " = " + value;
    RunIs(Space, line[k..], 1);
    assert line[k + 1..] == "= " + value && line[k + 2..] == " " + value;
    RunIs(Space, line[k + 2..], 1);
    assert line[k + 3..] == value && line[..k] == name;
  }

  lemma AttributeLineIsTidy(name: string, value: string)
    requires WordText(name) && ValueText(value)
    ensures var l := AttributeLine(name, value); Tidy(l) && OneLine(l) && CleanLine(l) == l && l[0] != '['
  {
    var l := AttributeLine(name, value);
    assert l[0] == name[0] && l[|l| - 1] == value[|value| - 1];
    assert Tidy(l) && OneLine(l) by {
      assert forall k :: 0 <= k < |name| ==> name[k] != '#' && name[k] != '\n' && name[k] != '\r';
      assert l == name + " = " + value;
    }
    TidyIsClean(l);
  }

  // ---- Attribute.split: around \s*,\s*, without trailing empty strings ----

  function Cut(s: string): (r: seq<string>)
    ensures |r| > 0
    decreases |s|
  {
    var n := Index(s, ',');
    if n == |s| then [s] else [s[..n]] + Cut(s[n + 1..])
  }

  function SpaceEnd(s: string): string { if s != "" && Space(s[|s| - 1]) then SpaceEnd(s[..|s| - 1]) else s }

  function SpaceStart(s: string): string { s[Run(Space, s)..] }

  /** Blanks next to a comma belong to the comma. */
  function Segment(raw: seq<string>, i: nat): string
    requires i < |raw|
  {
    var s := if i > 0 then SpaceStart(raw[i]) else raw[i];
    if i + 1 < |raw| then SpaceEnd(s) else s
  }

  function Segments(raw: seq<string>): (r: seq<string>)
    ensures |r| == |raw|
    ensures forall i :: 0 <= i < |r| ==> r[i] == Segment(raw, i)
  {
    seq(|raw|, i requires 0 <= i < |raw| => Segment(raw, i))
  }

  function DropEmpty(xs: seq<string>): seq<string> {
    if xs != [] && xs[|xs| - 1] == "" then DropEmpty(xs[..|xs| - 1]) else xs
  }

  function Split(s: string): seq<string> {
    var raw := Cut(s);
    if |raw| == 1 then [s] else DropEmpty(Segments(raw))
  }

  function JoinWith(sep: string, xs: seq<string>): string {
    if xs == [] then "" else if |xs| == 1 then xs[0] else xs[0] + sep + JoinWith(sep, xs[1..])
  }

  /** Attribute.join. */
  method Join(values: seq<string>) returns (s: string)
    ensures s == JoinWith(", ", values)
  {
    if values == [] {
      return "";
    }
    s := values[0];
    var i := 1;
    while i < |values|
      invariant 1 <= i <= |values| && s == JoinWith(", ", values[..i])
    {
      assert values[..i + 1] == values[..i] + [values[i]];
      JoinSnoc(", ", values[..i], values[i]);
      s := s + ", ";
      s := s + values[i];
      i := i + 1;
    }
    assert values[..i] == values;
  }

  lemma {:induction false} JoinSnoc(sep: string, xs: seq<string>, x: string)
    requires xs != []
    ensures JoinWith(sep, xs + [x]) == JoinWith(sep, xs) + sep + x
  {
    var ys := xs + [x];
    assert ys[1..] == xs[1..] + [x];
    if |xs| == 1 {
      assert ys[1..] == [x];
    } else {
      JoinSnoc(sep, xs[1..], x);
      assert xs[0] + sep + (JoinWith(sep, xs[1..]) + sep + x) == (xs[0] + sep + JoinWith(sep, xs[1..])) + sep + x;
    }
  }

  /** An element of a list that can be told from its neighbours. */
  predicate Item(x: string) { Tidy(x) && OneLine(x) && ',' !in x }

  predicate Items(xs: seq<string>) { forall k :: 0 <= k < |xs| ==> Item(xs[k]) }

  /** ", " in Java, "," in Kotlin. */
  predicate Separator(sep: string) { sep == "," || sep == ", " }

  function Padded(p: string, pad: string, xs: seq<string>): (r: seq<string>)
    ensures |r| == |xs|
  {
    seq(|xs|, i requires 0 <= i < |xs| => (if i == 0 then p else pad) + xs[i])
  }

  lemma {:induction false} CutJoin(p: string, sep: string, xs: seq<string>)
    requires Separator(sep) && xs != [] && Items(xs) && ',' !in p
    ensures Cut(p + JoinWith(sep, xs)) == Padded(p, sep[1..], xs)
    decreases |xs|
  {
    hide Run;
    var x, pad := xs[0], sep[1..];
    var s := p + JoinWith(sep, xs);
    assert ',' !in x && ',' !in pad;
    if |xs| == 1 {
      CommaAt(s, |s|);
    } else {
      var rest := JoinWith(sep, xs[1..]);
      assert sep == "," + pad;
      assert s == (p + x) + "," + (pad + rest);
      var n := |p + x|;
      assert s[..n] == p + x && s[n] == ',' && s[n + 1..] == pad + rest;
      CommaAt(s, n);
      CutJoin(pad, sep, xs[1..]);
      assert Padded(p, pad, xs) == [p + x] + Padded(pad, pad, xs[1..]);
    }
  }

  lemma CommaAt(s: string, n: nat)
    requires n <= |s| && ',' !in s[..n] && (n < |s| ==> s[n] == ',')
    ensures Index(s, ',') == n
  {
    forall k | 0 <= k < n ensures s[k] != ',' {
      assert s[..n][k] == s[k];
    }
    RunIs(x => x != ',', s, n);
  }

  /** Splitting undoes joining. */
  lemma SplitJoin(sep: string, xs: seq<string>)
    requires Separator(sep) && xs != [] && Items(xs)
    ensures Split(JoinWith(sep, xs)) == xs
  {
    hide Run, Cut, JoinWith, Item, Segment, Segments;
    var s := JoinWith(sep, xs);
    CutJoin("", sep, xs);
    assert "" + s == s;
    var raw := Cut(s);
    if |xs| == 1 {
      JoinOne(sep, xs);
    } else {
      forall i | 0 <= i < |xs| ensures Segment(raw, i) == xs[i] {
        ItemSegment(sep[1..], xs[i], raw, i);
      }
      assert Segments(raw) == xs;
      NonEmptyItem(xs[|xs| - 1]);
    }
  }

  lemma JoinOne(sep: string, xs: seq<string>)
    requires |xs| == 1
    ensures [JoinWith(sep, xs)] == xs
  {
  }

  lemma NonEmptyItem(x: string)
    requires Item(x)
    ensures x != ""
  {
  }

  lemma ItemSegment(pad: string, x: string, raw: seq<string>, i: nat)
    requires (pad == "" || pad == " ") && Item(x) && i < |raw| && raw[i] == (if i == 0 then "" else pad) + x
    ensures Segment(raw, i) == x
  {
    hide Run;
    if i > 0 {
      RunIs(Space, raw[i], |pad|);
      assert raw[i][|pad|..] == x;
    }
  }

  /** A joined list is a value. */
  lemma {:induction false} JoinIsValue(sep: string, xs: seq<string>)
    requires Separator(sep) && xs != [] && Items(xs)
    ensures ValueText(JoinWith(sep, xs))
  {
    var x := xs[0];
    assert Item(x);
    if |xs| > 1 {
      JoinIsValue(sep, xs[1..]);
      var rest := JoinWith(sep, xs[1..]);
      var s := x + sep + rest;
      assert s[0] == x[0] && s[|s| - 1] == rest[|rest| - 1];
    }
  }
}
