/**
 * `parse_config_from_env`: the settings text is split into lines; each line
 * is stripped, lines that are blank or have no '=' are skipped, the rest are
 * split at their first '=' into a stripped key and a stripped value, and a
 * later line for the same key overrides an earlier one.
 */
module Config {
  import opened Wrappers

  /** The characters Python's `str.strip()` removes (Unicode whitespace). */
  predicate IsSpace(c: char)
  {
    || '\t' <= c <= '\r'
    || '\U{1c}' <= c <= ' '
    || c == '\U{85}' || c == '\U{a0}' || c == '\U{1680}'
    || '\U{2000}' <= c <= '\U{200a}'
    || c == '\U{2028}' || c == '\U{2029}' || c == '\U{202f}' || c == '\U{205f}' || c == '\U{3000}'
  }

  /** The line boundaries of Python's `str.splitlines()`; "\r\n" counts as one. */
  predicate IsLineBreak(c: char)
  {
    || '\n' <= c <= '\r'
    || '\U{1c}' <= c <= '\U{1e}'
    || c == '\U{85}' || c == '\U{2028}' || c == '\U{2029}'
  }

  /** `s` without its leading whitespace. */
  function TrimStart(s: string): string
  {
    if s != [] && IsSpace(s[0]) then TrimStart(s[1..]) else s
  }

  /** `s` without its trailing whitespace. */
  function TrimEnd(s: string): string
  {
    if s != [] && IsSpace(s[|s| - 1]) then TrimEnd(s[..|s| - 1]) else s
  }

  lemma {:induction false} TrimStartSpec(s: string)
    ensures var r := TrimStart(s);
      && |r| <= |s| && r == s[|s| - |r|..]
      && (forall k :: 0 <= k < |s| - |r| ==> IsSpace(s[k]))
      && (r == [] || !IsSpace(r[0]))
  {
    if s != [] && IsSpace(s[0]) {
      var t := s[1..];
      TrimStartSpec(t);
      var r := TrimStart(t);
      assert TrimStart(s) == r;
      assert t[|t| - |r|..] == s[|s| - |r|..];
      forall k | 0 <= k < |s| - |r| ensures IsSpace(s[k]) {
        if k > 0 { assert s[k] == t[k - 1]; }
      }
    }
  }

  lemma {:induction false} TrimEndSpec(s: string)
    ensures var r := TrimEnd(s);
      && |r| <= |s| && r == s[..|r|]
      && (forall k :: |r| <= k < |s| ==> IsSpace(s[k]))
      && (r == [] || !IsSpace(r[|r| - 1]))
  {
    if s != [] && IsSpace(s[|s| - 1]) {
      var t := s[..|s| - 1];
      TrimEndSpec(t);
      var r := TrimEnd(t);
      assert TrimEnd(s) == r;
      assert t[..|r|] == s[..|r|];
      forall k | |r| <= k < |s| ensures IsSpace(s[k]) {
        if k < |t| { assert s[k] == t[k]; }
      }
    }
  }

  /** Python's `str.strip()` with no argument. */
  function Strip(s: string): string
  {
    TrimEnd(TrimStart(s))
  }

  /** A string that begins and ends with a non-space, or is empty. */
  predicate Stripped(s: string)
  {
    s == [] || (!IsSpace(s[0]) && !IsSpace(s[|s| - 1]))
  }

  /** The position of the first `c` in `s`, or `|s|`. */
  function FirstIndex(s: string, c: char): (n: nat)
    ensures n <= |s|
    ensures n < |s| ==> s[n] == c
    ensures forall k :: 0 <= k < n ==> s[k] != c
  {
    if s == [] then 0
    else if s[0] == c then 0
    else 1 + FirstIndex(s[1..], c)
  }

  /** The position of the first line boundary in `s`, or `|s|`. */
  function FirstBreak(s: string): (n: nat)
    ensures n <= |s|
    ensures n < |s| ==> IsLineBreak(s[n])
    ensures forall k :: 0 <= k < n ==> !IsLineBreak(s[k])
  {
    if s == [] then 0
    else if IsLineBreak(s[0]) then 0
    else 1 + FirstBreak(s[1..])
  }

  /** Python's `str.splitlines()`: no boundary is kept and a final boundary adds no empty line. */
  function SplitLines(s: string): seq<string>
    decreases |s|
  {
    if s == [] then []
    else
      var n := FirstBreak(s);
      if n == |s| then [s]
      else
        var width := if s[n] == '\r' && n + 1 < |s| && s[n + 1] == '\n' then 2 else 1;
        [s[..n]] + SplitLines(s[n + width..])
  }

  /**
   * One line: `None` when it is skipped, otherwise the key and the value
   * around its first '='.
   */
  function ParseLine(line: string): Option<(string, string)>
  {
    var l := Strip(line);
    if l == [] || '=' !in l then None
    else
      var i := FirstIndex(l, '=');
      Some((Strip(l[..i]), Strip(l[i + 1..])))
  }

  type Settings = map<string, string>

  /** The settings the lines define, each line overriding what came before. */
  function ConfigOf(lines: seq<string>): Settings
  {
    Collect(Parsed(lines))
  }

  /** Each line, parsed. */
  function Parsed(lines: seq<string>): (ps: seq<Option<(string, string)>>)
    ensures |ps| == |lines|
  {
    seq(|lines|, i requires 0 <= i < |lines| => ParseLine(lines[i]))
  }

  /** The settings that a run of parsed lines defines, each overriding what came before. */
  function Collect(ps: seq<Option<(string, string)>>): Settings
  {
    if ps == [] then map[] else Apply(Collect(ps[..|ps| - 1]), ps[|ps| - 1])
  }

  /** The effect of one line on the settings so far. */
  function Apply(before: Settings, parsed: Option<(string, string)>): Settings
  {
    match parsed
    case None => before
    case Some(kv) => before[kv.0 := kv.1]
  }

  function ParseConfig(raw: string): Settings
  {
    ConfigOf(SplitLines(raw))
  }

  lemma ConfigOfStep(lines: seq<string>, k: nat)
    requires k < |lines|
    ensures ConfigOf(lines[..k + 1]) == Apply(ConfigOf(lines[..k]), ParseLine(lines[k]))
  {
    var ps := Parsed(lines[..k + 1]);
    assert ps[..k] == Parsed(lines[..k]);
    assert ps[k] == ParseLine(lines[k]);
  }

  /** Reads the settings text line by line into a dictionary. */
  method ParseConfigText(raw: string) returns (config: Settings)
    ensures config == ParseConfig(raw)
  {
    var lines := SplitLines(raw);
    config := map[];
    var k := 0;
    while k < |lines|
      invariant 0 <= k <= |lines|
      invariant config == ConfigOf(lines[..k])
    {
      ghost var before := config;
      var line := Strip(lines[k]);
      ConfigOfStep(lines, k);
      if line != [] && '=' in line {
        var i := FirstIndex(line, '=');
        var key := Strip(line[..i]);
        var value := Strip(line[i + 1..]);
        assert ParseLine(lines[k]) == Some((key, value));
        config := config[key := value];
      } else {
        assert ParseLine(lines[k]) == None;
      }
      k := k + 1;
    }
    assert lines[..|lines|] == lines;
  }

  // ---------------------------------------------------------------------------
  // Lemmas: stripping

  /**
   * Stripping removes a run of whitespace at each end and nothing else:
   * the result is the slice `s[i..i + |r|]`, everything outside it is
   * whitespace, and the result starts and ends with a non-space.
   */
  lemma StripSpec(s: string) returns (i: nat)
    ensures var r := Strip(s);
      && i + |r| <= |s| && r == s[i..i + |r|]
      && (forall k :: 0 <= k < i ==> IsSpace(s[k]))
      && (forall k :: i + |r| <= k < |s| ==> IsSpace(s[k]))
      && Stripped(r)
  {
    var t := TrimStart(s);
    TrimStartSpec(s);
    i := |s| - |t|;
    var r := TrimEnd(t);
    TrimEndSpec(t);
    assert r == t[..|r|] == s[i..i + |r|];
    forall k | i + |r| <= k < |s| ensures IsSpace(s[k]) {
      assert s[k] == t[k - i];
    }
    if r != [] {
      assert r[0] == t[0];
    }
  }

  /** A string that already starts and ends with a non-space is left alone. */
  lemma StripOfStripped(s: string)
    requires Stripped(s)
    ensures Strip(s) == s
  {
  }

  lemma StripIdempotent(s: string)
    ensures Strip(Strip(s)) == Strip(s)
  {
    var i := StripSpec(s);
    StripOfStripped(Strip(s));
  }

  // ---------------------------------------------------------------------------
  // Lemmas: lines

  predicate NoBreaks(l: string)
  {
    forall k :: 0 <= k < |l| ==> !IsLineBreak(l[k])
  }

  /** No line contains a line boundary. */
  lemma SplitLinesNoBreaks(s: string)
    ensures forall l :: l in SplitLines(s) ==> NoBreaks(l)
    decreases |s|
  {
    if s != [] {
      var n := FirstBreak(s);
      if n < |s| {
        var width := if s[n] == '\r' && n + 1 < |s| && s[n + 1] == '\n' then 2 else 1;
        SplitLinesNoBreaks(s[n + width..]);
      }
    }
  }

  /** Lines joined with a "\n" after each one. */
  function JoinLines(lines: seq<string>): string
  {
    if lines == [] then "" else lines[0] + "\n" + JoinLines(lines[1..])
  }

  /** A boundary-free line followed by "\n" splits off as the first line. */
  lemma SplitLinesAfterLine(l: string, t: string)
    requires NoBreaks(l)
    ensures SplitLines(l + "\n" + t) == [l] + SplitLines(t)
  {
    var s := l + "\n" + t;
    assert forall k :: 0 <= k < |l| ==> s[k] == l[k];
    assert s[|l|] == '\n';
    FirstBreakAt(s, |l|);
    assert s[..|l|] == l;
    assert s[|l| + 1..] == t;
  }

  /** Splitting undoes joining, for lines free of boundaries. */
  lemma {:induction false} SplitJoinLines(lines: seq<string>)
    requires forall j :: 0 <= j < |lines| ==> NoBreaks(lines[j])
    ensures SplitLines(JoinLines(lines)) == lines
  {
    if lines != [] {
      var rest := lines[1..];
      assert forall j :: 0 <= j < |rest| ==> rest[j] == lines[j + 1];
      SplitJoinLines(rest);
      SplitLinesAfterLine(lines[0], JoinLines(rest));
    }
  }

  lemma FirstBreakAt(s: string, n: nat)
    requires n < |s| && IsLineBreak(s[n]) && forall k :: 0 <= k < n ==> !IsLineBreak(s[k])
    ensures FirstBreak(s) == n
  {
  }

  // ---------------------------------------------------------------------------
  // Lemmas: one line

  /** A line is used exactly when it contains '='. */
  lemma ParseLineUsed(line: string)
    ensures ParseLine(line).Some? <==> '=' in line
  {
    var i := StripSpec(line);
    var l := Strip(line);
    if '=' in line {
      var k :| 0 <= k < |line| && line[k] == '=';
      assert !IsSpace(line[k]);
      assert i <= k < i + |l|;
      assert l[k - i] == '=';
    }
  }

  predicate AllSpace(w: string)
  {
    forall k :: 0 <= k < |w| ==> IsSpace(w[k])
  }

  lemma AllSpaceConcat(a: string, b: string)
    requires AllSpace(a) && AllSpace(b)
    ensures AllSpace(a + b)
  {
    assert forall k :: |a| <= k < |a + b| ==> (a + b)[k] == b[k - |a|];
  }

  /** A string is its stripped form between two runs of whitespace. */
  lemma StripSplit(s: string) returns (w: string, u: string)
    ensures s == w + Strip(s) + u && AllSpace(w) && AllSpace(u) && Stripped(Strip(s))
  {
    var i := StripSpec(s);
    var r := Strip(s);
    w, u := s[..i], s[i + |r|..];
    assert s == s[..i] + s[i..i + |r|] + s[i + |r|..];
  }

  /** The key of a used line holds no '=', and neither key nor value has whitespace at its ends. */
  lemma ParseLineKey(line: string)
    requires ParseLine(line).Some?
    ensures var (key, value) := ParseLine(line).value;
      '=' !in key && Stripped(key) && Stripped(value)
  {
    var l := Strip(line);
    var e := FirstIndex(l, '=');
    var left := l[..e];
    var a := StripSpec(left);
    var b := StripSpec(l[e + 1..]);
    var key := Strip(left);
    forall k | 0 <= k < |key| ensures key[k] != '=' {
      assert key[k] == left[a + k] == l[a + k];
    }
  }

  /**
   * A used line is whitespace, the key, whitespace, '=', whitespace, the
   * value, whitespace; the key holds no '=', so that '=' is the line's first.
   */
  lemma ParseLineShape(line: string) returns (w1: string, w2: string, w3: string, w4: string)
    requires ParseLine(line).Some?
    ensures var (key, value) := ParseLine(line).value;
      line == w1 + key + w2 + "=" + w3 + value + w4 && '=' !in key
    ensures AllSpace(w1) && AllSpace(w2) && AllSpace(w3) && AllSpace(w4)
  {
    ParseLineKey(line);
    var l := Strip(line);
    var e := FirstIndex(l, '=');
    var left, right := l[..e], l[e + 1..];
    var key, value := Strip(left), Strip(right);
    var wa, wb := StripSplit(line);
    var wl, wr := StripSplit(left);
    var wv, wu := StripSplit(right);
    SplitAtFirst(l, e);
    w1, w2, w3, w4 := wa + wl, wr, wv, wu + wb;
    AllSpaceConcat(wa, wl);
    AllSpaceConcat(wu, wb);
    Reassociate(line, wa, l, wb, left, right, wl, key, wr, wv, value, wu);
  }

  lemma SplitAtFirst(l: string, e: nat)
    requires e < |l| && l[e] == '='
    ensures l == l[..e] + "=" + l[e + 1..]
  {
    assert l[..e] + "=" + l[e + 1..] == l[..e] + l[e..];
  }

  lemma Reassociate(line: string, wa: string, l: string, wb: string, left: string, right: string,
                    wl: string, key: string, wr: string, wv: string, value: string, wu: string)
    requires line == wa + l + wb && l == left + "=" + right
    requires left == wl + key + wr && right == wv + value + wu
    ensures line == (wa + wl) + key + wr + "=" + wv + value + (wu + wb)
  {
    calc {
      line;
      == wa + ((wl + key + wr) + "=" + (wv + value + wu)) + wb;
      == (wa + wl) + key + wr + "=" + wv + value + (wu + wb);
    }
  }

  /** Writing a stripped key without '=' and a stripped value around '=' reads back as that pair. */
  lemma ParseLineRoundTrip(key: string, value: string)
    requires '=' !in key && Stripped(key) && Stripped(value)
    ensures ParseLine(key + "=" + value) == Some((key, value))
  {
    var line := key + "=" + value;
    assert line[|key|] == '=';
    assert !IsSpace(line[0]) && !IsSpace(line[|line| - 1]);
    StripOfStripped(line);
    assert FirstIndex(line, '=') == |key| by {
      FirstIndexAt(line, '=', |key|);
    }
    assert line[..|key|] == key && line[|key| + 1..] == value;
    StripOfStripped(key);
    StripOfStripped(value);
  }

  lemma FirstIndexAt(s: string, c: char, n: nat)
    requires n < |s| && s[n] == c && forall k :: 0 <= k < n ==> s[k] != c
    ensures FirstIndex(s, c) == n
  {
  }

  // ---------------------------------------------------------------------------
  // Lemmas: the whole text

  /** Parsed line `p` sets `key`. */
  predicate SetsKey(p: Option<(string, string)>, key: string)
  {
    p.Some? && p.value.0 == key
  }

  /**
   * A key is set exactly when some parsed line has it, and its value is the
   * one on the last such line.
   */
  lemma {:induction false} CollectLookup(ps: seq<Option<(string, string)>>, key: string)
    ensures key in Collect(ps) <==> exists i :: 0 <= i < |ps| && SetsKey(ps[i], key)
    ensures key in Collect(ps) ==> exists i :: (0 <= i < |ps|
      && ps[i] == Some((key, Collect(ps)[key]))
      && forall j :: i < j < |ps| ==> !SetsKey(ps[j], key))
  {
    if ps != [] {
      var n := |ps| - 1;
      var p := ps[..n];
      CollectLookup(p, key);
      assert forall i :: 0 <= i < n ==> p[i] == ps[i];
      if SetsKey(ps[n], key) {
        assert ps[n] == Some((key, Collect(ps)[key]));
      } else if key in Collect(ps) {
        var i :| 0 <= i < |p| && p[i] == Some((key, Collect(p)[key]))
          && forall j :: i < j < |p| ==> !SetsKey(p[j], key);
        assert Collect(ps)[key] == Collect(p)[key];
        assert forall j :: i < j < |ps| ==> !SetsKey(ps[j], key);
      }
    }
  }

  /**
   * A key is set exactly when some used line has it, and its value is the
   * one on the last such line.
   */
  lemma ConfigOfLookup(lines: seq<string>, key: string)
    ensures key in ConfigOf(lines) <==> exists i :: 0 <= i < |lines| && SetsKey(ParseLine(lines[i]), key)
    ensures key in ConfigOf(lines) ==> exists i :: (0 <= i < |lines|
      && ParseLine(lines[i]) == Some((key, ConfigOf(lines)[key]))
      && forall j :: i < j < |lines| ==> !SetsKey(ParseLine(lines[j]), key))
  {
    var ps := Parsed(lines);
    CollectLookup(ps, key);
    assert forall i :: 0 <= i < |lines| ==> ps[i] == ParseLine(lines[i]);
  }

  /** No key contains '='. */
  lemma ConfigKeys(lines: seq<string>)
    ensures forall key :: key in ConfigOf(lines) ==> '=' !in key
  {
    forall key | key in ConfigOf(lines) ensures '=' !in key {
      ConfigOfLookup(lines, key);
      var i :| 0 <= i < |lines| && ParseLine(lines[i]) == Some((key, ConfigOf(lines)[key]))
        && forall j :: i < j < |lines| ==> !SetsKey(ParseLine(lines[j]), key);
      ParseLineKey(lines[i]);
    }
  }

  /** "\r\n" is one boundary and a final boundary adds no empty line. */
  lemma CrLfIsOneBoundary()
    ensures SplitLines("a\r\nb\n") == ["a", "b"]
  {
    var s := "a\r\nb\n";
    FirstBreakAt(s, 1);
    assert s[..1] == "a" && s[3..] == "b\n";
    FirstBreakAt("b\n", 1);
    assert "b\n"[..1] == "b" && "b\n"[2..] == "";
  }

  /** Whitespace around the line, the key and the value is dropped. */
  lemma SpacedLine()
    ensures ParseLine(" A = 2 ") == Some(("A", "2"))
  {
    var l := " A = 2 ";
    assert TrimStart(l) == l[1..] == "A = 2 ";
    assert TrimEnd("A = 2 ") == "A = 2";
    assert Strip(l) == "A = 2";
    FirstIndexAt("A = 2", '=', 2);
    assert "A = 2"[..2] == "A " && "A = 2"[3..] == " 2";
    assert TrimEnd("A ") == "A";
    assert TrimStart(" 2") == "2";
  }

  /** Two parsed lines act one after the other. */
  lemma CollectTwo(a: Option<(string, string)>, b: Option<(string, string)>)
    ensures Collect([a, b]) == Apply(Apply(map[], a), b)
  {
    assert [a][..0] == [];
    assert Collect([a]) == Apply(map[], a);
    assert [a, b][..1] == [a];
    assert Collect([a, b]) == Apply(Collect([a]), b);
  }

  /** Of two used lines for one key the later wins, whatever the first one said. */
  lemma LaterLineWins(first: string, second: string)
    requires ParseLine(first).Some? && ParseLine(second).Some?
    requires ParseLine(first).value.0 == ParseLine(second).value.0
    ensures ConfigOf([first, second]) == map[ParseLine(second).value.0 := ParseLine(second).value.1]
  {
    var p0, p1 := ParseLine(first), ParseLine(second);
    assert Parsed([first, second]) == [p0, p1];
    CollectTwo(p0, p1);
  }
}
