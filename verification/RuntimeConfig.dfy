/** The runtime-config block that is rewritten in place inside a launch script. */
module RuntimeConfig {
  import opened Bytes

  // ---------------------------------------------------------------- searching

  predicate OccursAt(text: string, pat: string, i: int) {
    0 <= i && i + |pat| <= |text| && text[i..i + |pat|] == pat
  }

  ghost predicate Contains(text: string, pat: string) {
    exists i: int :: OccursAt(text, pat, i)
  }

  /** Index of the first occurrence, or -1. */
  function First(text: string, pat: string): (r: int)
    ensures r >= 0 ==> OccursAt(text, pat, r) && forall i | 0 <= i < r :: !OccursAt(text, pat, i)
    ensures r < 0 ==> r == -1 && forall i: int :: !OccursAt(text, pat, i)
  {
    FirstFrom(text, pat, 0)
  }

  function FirstFrom(text: string, pat: string, from: nat): (r: int)
    requires from <= |text|
    ensures r >= 0 ==> OccursAt(text, pat, r) && from <= r
                       && forall i | from <= i < r :: !OccursAt(text, pat, i)
    ensures r < 0 ==> r == -1 && forall i: int | from <= i :: !OccursAt(text, pat, i)
    decreases |text| - from
  {
    if OccursAt(text, pat, from) then from
    else if from == |text| then -1
    else FirstFrom(text, pat, from + 1)
  }

  /** An occurrence that ends inside `head` does not depend on what follows. */
  lemma OccursInHead(head: string, x: string, pat: string, i: int)
    requires i + |pat| <= |head|
    ensures OccursAt(head + x, pat, i) <==> OccursAt(head, pat, i)
  {
  }

  /** If `pat` is first found right after `before`, it still is when the text behind it is
      replaced. */
  lemma FirstStays(before: string, pat: string, x: string, y: string)
    requires First(before + (pat + x), pat) == |before|
    ensures First(before + (pat + y), pat) == |before|
  {
    var head := before + pat;
    assert before + (pat + x) == head + x && before + (pat + y) == head + y;
    assert (head + y)[|before|..|head|] == pat;
    assert OccursAt(head + y, pat, |before|);
    forall i | 0 <= i < |before| ensures !OccursAt(head + y, pat, i) {
      OccursInHead(head, x, pat, i);
      OccursInHead(head, y, pat, i);
    }
  }

  // ---------------------------------------------------------------- the block

  /** Batch files and shell scripts differ in their markers and their assignments. */
  datatype Style = Bat | Sh

  function Begin(style: Style): string {
    match style case Bat => "REM BEGIN RFV_RUNTIME_CONFIG" case Sh => "# BEGIN RFV_RUNTIME_CONFIG"
  }

  function End(style: Style): string {
    match style case Bat => "REM END RFV_RUNTIME_CONFIG" case Sh => "# END RFV_RUNTIME_CONFIG"
  }

  const KEYS: seq<string> := ["RFV_VEHICLE_NUM", "RFV_START_INDEX", "RFV_DLL_MODEL"]

  function Head(style: Style, key: string): string {
    (match style case Bat => "SET " case Sh => "export ") + key + "="
  }

  /** One assignment line. */
  datatype Line = Line(head: string, value: string)

  function LinesOf(style: Style, env: map<string, string>, keys: seq<string>): seq<Line> {
    if keys == [] then []
    else
      (if keys[0] in env then [Line(Head(style, keys[0]), env[keys[0]])] else [])
      + LinesOf(style, env, keys[1..])
  }

  /** Lines, each ended by a newline. */
  function Render(lines: seq<Line>): string {
    if lines == [] then ""
    else (lines[0].head + lines[0].value + "\n") + Render(lines[1..])
  }

  /** What stands between the markers. */
  function Body(lines: seq<Line>): string {
    "\n" + Render(lines)
  }

  datatype Result = Ok(text: string) | MissingMarkers

  /** The stretch from the first `b` to the first `e` after it is replaced. The source tests for
      both markers first and raises the same error when the second split finds no end marker. */
  function Splice(text: string, b: string, e: string, body: string): Result {
    var i := First(text, b);
    if i < 0 || First(text, e) < 0 then MissingMarkers
    else
      var rest := text[i..][|b|..];
      var j := First(rest, e);
      if j < 0 then MissingMarkers
      else Ok(text[..i] + (b + (body + (e + rest[j..][|e|..]))))
  }

  function Rewrite(style: Style, env: map<string, string>, text: string): Result {
    Splice(text, Begin(style), End(style), Body(LinesOf(style, env, KEYS)))
  }

  // ---------------------------------------------------------------- where an end marker can hide

  /** No occurrence of `pat` can start in `head`, whatever follows it: two characters decide. */
  ghost predicate HeadSafe(head: string, pat: string) {
    |pat| > 1
    && forall i | 0 <= i < |head| :: head[i] == pat[0] ==> i + 1 < |head| && head[i + 1] != pat[1]
  }

  ghost predicate NoNewline(s: string) {
    forall i | 0 <= i < |s| :: s[i] != '\n'
  }

  lemma NotInHead(head: string, x: string, pat: string, i: int)
    requires HeadSafe(head, pat) && 0 <= i < |head|
    ensures !OccursAt(head + x, pat, i)
  {
    if OccursAt(head + x, pat, i) {
      OccursChar(head + x, pat, i, 0);
      OccursChar(head + x, pat, i, 1);
    }
  }

  lemma OccursChar(text: string, pat: string, i: int, k: nat)
    requires OccursAt(text, pat, i) && k < |pat|
    ensures text[i + k] == pat[k]
  {
  }

  lemma OccursShift(a: string, b: string, pat: string, i: int)
    requires i >= |a|
    ensures OccursAt(a + b, pat, i) <==> OccursAt(b, pat, i - |a|)
  {
  }

  lemma NotAcrossNewline(a: string, b: string, pat: string, i: int)
    requires NoNewline(pat) && 0 <= i <= |a| < i + |pat|
    ensures !OccursAt(a + "\n" + b, pat, i)
  {
    var text := a + "\n" + b;
    if i + |pat| <= |text| {
      assert text[i..i + |pat|][|a| - i] == text[|a|] == '\n';
    }
  }

  ghost predicate SomeValueContains(lines: seq<Line>, pat: string) {
    exists k | 0 <= k < |lines| :: Contains(lines[k].value, pat)
  }

  ghost predicate HeadsSafe(lines: seq<Line>, pat: string) {
    forall k | 0 <= k < |lines| :: HeadSafe(lines[k].head, pat)
  }

  /** An occurrence of the marker that starts in the rendered lines lies inside a value. */
  lemma {:induction false} HidesInValue(lines: seq<Line>, pat: string, tail: string, i: int)
    requires HeadsSafe(lines, pat) && NoNewline(pat) && |pat| > 1
    requires 0 <= i < |Render(lines)| && OccursAt(Render(lines) + tail, pat, i)
    ensures SomeValueContains(lines, pat)
    decreases |lines|
  {
    var line, rest := lines[0], lines[1..];
    var l, r := line.head + line.value, Render(rest) + tail;
    assert Render(lines) + tail == l + "\n" + r;
    if i > |l| {
      OccursShift(l + "\n", r, pat, i);
      HidesInValue(rest, pat, tail, i - |l| - 1);
      var k :| 0 <= k < |rest| && Contains(rest[k].value, pat);
      assert Contains(lines[k + 1].value, pat);
    } else if i + |pat| > |l| {
      NotAcrossNewline(l, r, pat, i);
    } else {
      OccursInHead(l, "\n" + r, pat, i);
      assert l + ("\n" + r) == l + "\n" + r;
      InOneLine(line, pat, i);
      assert Contains(lines[0].value, pat);
    }
  }

  lemma InOneLine(line: Line, pat: string, i: int)
    requires HeadSafe(line.head, pat) && OccursAt(line.head + line.value, pat, i)
    ensures Contains(line.value, pat)
  {
    if i < |line.head| {
      NotInHead(line.head, line.value, pat, i);
    }
    OccursShift(line.head, line.value, pat, i);
    assert OccursAt(line.value, pat, i - |line.head|);
  }

  /** A value that contains the marker shows it in the rendered lines. */
  lemma {:induction false} ShowsInRender(lines: seq<Line>, pat: string, k: nat) returns (i: int)
    requires k < |lines| && Contains(lines[k].value, pat) && |pat| > 0
    ensures 0 <= i < |Render(lines)| && OccursAt(Render(lines), pat, i)
    decreases |lines|
  {
    var line, rest := lines[0], lines[1..];
    var l := line.head + line.value;
    if k > 0 {
      var j := ShowsInRender(rest, pat, k - 1);
      i := j + |l| + 1;
      OccursShift(l + "\n", Render(rest), pat, i);
    } else {
      var j :| OccursAt(line.value, pat, j);
      i := j + |line.head|;
      OccursShift(line.head, line.value, pat, i);
      OccursInHead(l, "\n" + Render(rest), pat, i);
      assert l + ("\n" + Render(rest)) == Render(lines);
    }
  }

  /** A marker found before the block's own end marker lies in a value. */
  lemma EarlyEnd(lines: seq<Line>, pat: string, tail: string, r: int)
    requires HeadsSafe(lines, pat) && NoNewline(pat) && |pat| > 1
    requires 0 <= r < |Body(lines)| && OccursAt(Body(lines) + tail, pat, r)
    ensures SomeValueContains(lines, pat)
  {
    var rest := Render(lines) + tail;
    assert Body(lines) + tail == "\n" + rest == "" + "\n" + rest;
    NotAcrossNewline("", rest, pat, 0);
    OccursShift("\n", rest, pat, r);
    HidesInValue(lines, pat, tail, r - 1);
  }

  /** A value that contains the marker hides the block's own end marker. */
  lemma ValueHidesEnd(lines: seq<Line>, pat: string, tail: string) returns (i: int)
    requires SomeValueContains(lines, pat) && |pat| > 1
    ensures 0 <= i < |Body(lines)| && OccursAt(Body(lines) + tail, pat, i)
  {
    var k :| 0 <= k < |lines| && Contains(lines[k].value, pat);
    var j := ShowsInRender(lines, pat, k);
    i := j + 1;
    OccursShift("\n", Render(lines), pat, i);
    OccursInHead(Body(lines), tail, pat, i);
  }

  /** The first end marker after a rewritten block is the block's own if and only if no value
      contains one. */
  lemma OwnEndFirst(lines: seq<Line>, pat: string, suffix: string)
    requires HeadsSafe(lines, pat) && NoNewline(pat) && |pat| > 1
    ensures var r := First(Body(lines) + (pat + suffix), pat);
            && 0 <= r <= |Body(lines)|
            && (r == |Body(lines)| <==> !SomeValueContains(lines, pat))
  {
    var body, tail := Body(lines), pat + suffix;
    var r := First(body + tail, pat);
    OccursShift(body, tail, pat, |body|);
    Halves(pat, suffix);
    assert OccursAt(body + tail, pat, |body|);
    if r < |body| {
      EarlyEnd(lines, pat, tail, r);
    }
    if SomeValueContains(lines, pat) {
      var i := ValueHidesEnd(lines, pat, tail);
    }
  }

  // ---------------------------------------------------------------- the lines the scripts write

  lemma SafeConcat(a: string, b: string, pat: string)
    requires HeadSafe(a, pat) && HeadSafe(b, pat)
    ensures HeadSafe(a + b, pat)
  {
  }

  lemma SafeKey(key: string, pat: string)
    requires key in KEYS && |pat| > 1 && (pat[..2] == "RE" || pat[..2] == "# ")
    ensures HeadSafe(key, pat)
  {
    assert pat[0] == pat[..2][0] && pat[1] == pat[..2][1];
    assert key == KEYS[0] || key == KEYS[1] || key == KEYS[2];
  }

  lemma HeadOfKey(style: Style, key: string)
    requires key in KEYS
    ensures HeadSafe(Head(style, key), End(style))
  {
    var e := End(style);
    assert e[0] == (if style == Bat then 'R' else '#') && e[1] == (if style == Bat then 'E' else ' ');
    var word := match style case Bat => "SET " case Sh => "export ";
    SafeKey(key, e);
    assert HeadSafe(word, e) && HeadSafe("=", e);
    SafeConcat(word, key, e);
    SafeConcat(word + key, "=", e);
  }

  lemma {:induction false} LinesAreSafe(style: Style, env: map<string, string>, keys: seq<string>)
    requires forall key | key in keys :: key in KEYS
    ensures HeadsSafe(LinesOf(style, env, keys), End(style))
    decreases |keys|
  {
    if keys != [] {
      assert keys[0] in keys;
      LinesAreSafe(style, env, keys[1..]);
      if keys[0] in env {
        HeadOfKey(style, keys[0]);
      }
    }
  }

  /** The values the environment gives to the written keys. */
  ghost predicate SomeSettingContains(env: map<string, string>, pat: string) {
    exists key | key in KEYS && key in env :: Contains(env[key], pat)
  }

  lemma {:induction false} ValuesAreSettings(style: Style, env: map<string, string>,
                                             keys: seq<string>, pat: string)
    ensures SomeValueContains(LinesOf(style, env, keys), pat)
            <==> exists key | key in keys && key in env :: Contains(env[key], pat)
    decreases |keys|
  {
    if keys != [] {
      var lines, rest := LinesOf(style, env, keys), LinesOf(style, env, keys[1..]);
      ValuesAreSettings(style, env, keys[1..], pat);
      var first := if keys[0] in env then [Line(Head(style, keys[0]), env[keys[0]])] else [];
      assert lines == first + rest;
      SomeInConcat(first, rest, pat);
      assert SomeValueContains(first, pat)
             <==> keys[0] in env && Contains(env[keys[0]], pat) by {
        if keys[0] in env && Contains(env[keys[0]], pat) {
          assert Contains(first[0].value, pat);
        }
      }
    }
  }

  lemma SomeInConcat(a: seq<Line>, b: seq<Line>, pat: string)
    ensures SomeValueContains(a + b, pat) <==> SomeValueContains(a, pat) || SomeValueContains(b, pat)
  {
    if SomeValueContains(a, pat) {
      var k :| 0 <= k < |a| && Contains(a[k].value, pat);
      assert Contains((a + b)[k].value, pat);
    }
    if SomeValueContains(b, pat) {
      var k :| 0 <= k < |b| && Contains(b[k].value, pat);
      assert Contains((a + b)[|a| + k].value, pat);
    }
  }

  // ---------------------------------------------------------------- the laws

  /** A splice at the first markers, written out. */
  lemma SpliceAt(before: string, b: string, mid: string, e: string, after: string, body: string)
    requires First(before + (b + (mid + (e + after))), b) == |before|
    requires First(mid + (e + after), e) == |mid|
    ensures Splice(before + (b + (mid + (e + after))), b, e, body)
            == Ok(before + (b + (body + (e + after))))
  {
    var rest := mid + (e + after);
    OccursShift(b, rest, e, |b| + |mid|);
    OccursShift(before, b + rest, e, |before| + |b| + |mid|);
    Halves(before, b + rest);
    Halves(b, rest);
    Halves(mid, e + after);
    Halves(e, after);
  }

  lemma Halves(a: string, b: string)
    ensures (a + b)[..|a|] == a && (a + b)[|a|..] == b
  {
  }

  /** A found pattern cuts the text. */
  lemma CutAt(text: string, pat: string, i: int)
    requires OccursAt(text, pat, i)
    ensures text == text[..i] + (pat + text[i..][|pat|..])
  {
  }

  /** Every successful splice has that form. */
  lemma SpliceParts(text: string, b: string, e: string, body: string)
    returns (before: string, mid: string, after: string)
    requires Splice(text, b, e, body).Ok?
    ensures text == before + (b + (mid + (e + after)))
    ensures First(text, b) == |before| && First(mid + (e + after), e) == |mid|
    ensures Splice(text, b, e, body) == Ok(before + (b + (body + (e + after))))
  {
    var i := First(text, b);
    var rest := text[i..][|b|..];
    var j := First(rest, e);
    before, mid, after := text[..i], rest[..j], rest[j..][|e|..];
    CutAt(text, b, i);
    CutAt(rest, e, j);
  }

  /** The second splice of `before b body1 e after`, when its first end marker is at `r`. */
  lemma SpliceAgain(before: string, b: string, body1: string, e: string, after: string,
                    body2: string)
    requires First(before + (b + (body1 + (e + after))), b) == |before|
    requires 0 <= First(body1 + (e + after), e) <= |body1|
    ensures var again := Splice(before + (b + (body1 + (e + after))), b, e, body2);
            && again.Ok?
            && (again.text == before + (b + (body2 + (e + after)))
                <==> First(body1 + (e + after), e) == |body1|)
  {
    var rest := body1 + (e + after);
    var r := First(rest, e);
    var mid, tail := rest[..r], rest[r..][|e|..];
    CutAt(rest, e, r);
    SpliceAt(before, b, mid, e, tail, body2);
    if r == |body1| {
      Halves(body1, e + after);
      Halves(e, after);
    } else {
      assert |before + (b + (body2 + (e + tail)))| > |before + (b + (body2 + (e + after)))|;
    }
  }

  ghost predicate EndFollowsBegin(text: string, b: string, e: string) {
    exists i: int, j: int :: OccursAt(text, b, i) && OccursAt(text, e, j) && i + |b| <= j
  }

  lemma SplicesExactly(text: string, b: string, e: string, body: string)
    ensures Splice(text, b, e, body).Ok? <==> EndFollowsBegin(text, b, e)
  {
    var f := First(text, b);
    if f >= 0 {
      var head, rest := text[..f] + b, text[f..][|b|..];
      CutAt(text, b, f);
      Assoc(text[..f], b, rest);
      if EndFollowsBegin(text, b, e) {
        var i: int, j: int :| OccursAt(text, b, i) && OccursAt(text, e, j) && i + |b| <= j;
        OccursShift(head, rest, e, j);
      }
      var k := First(rest, e);
      if k >= 0 {
        OccursShift(head, rest, e, k + |head|);
      }
    }
  }

  /** The rewrite succeeds exactly on texts in which some begin marker is followed by an end
      marker that does not overlap it. */
  lemma WritableExactly(style: Style, env: map<string, string>, text: string)
    ensures Rewrite(style, env, text).Ok? <==> EndFollowsBegin(text, Begin(style), End(style))
  {
    SplicesExactly(text, Begin(style), End(style), Body(LinesOf(style, env, KEYS)));
  }

  /** Text outside the block is unchanged, and the block holds exactly the rendered settings. */
  lemma OutsideUnchanged(style: Style, env: map<string, string>, text: string)
    returns (before: string, replaced: string, after: string)
    requires EndFollowsBegin(text, Begin(style), End(style))
    ensures text == before + (Begin(style) + (replaced + (End(style) + after)))
    ensures Rewrite(style, env, text)
            == Ok(before + (Begin(style) + (Body(LinesOf(style, env, KEYS)) + (End(style) + after))))
    ensures forall i :: OccursAt(text, Begin(style), i) ==> |before| <= i
    ensures forall i :: OccursAt(replaced + (End(style) + after), End(style), i) ==> |replaced| <= i
  {
    WritableExactly(style, env, text);
    before, replaced, after :=
      SpliceParts(text, Begin(style), End(style), Body(LinesOf(style, env, KEYS)));
  }

  /** Two splices against one, for any markers and any lines that cannot form an end marker
      outside their values. */
  lemma SpliceTwice(text: string, b: string, e: string, lines: seq<Line>, body: string)
    requires HeadsSafe(lines, e) && NoNewline(e) && |e| > 1
    requires Splice(text, b, e, Body(lines)).Ok?
    ensures var once := Splice(text, b, e, Body(lines)).text;
            && Splice(once, b, e, body).Ok?
            && (Splice(once, b, e, body) == Splice(text, b, e, body) <==> !SomeValueContains(lines, e))
  {
    var before, mid, after := SpliceParts(text, b, e, Body(lines));
    SpliceAt(before, b, mid, e, after, body);
    FirstStays(before, b, mid + (e + after), Body(lines) + (e + after));
    OwnEndFirst(lines, e, after);
    SpliceAgain(before, b, Body(lines), e, after, body);
  }

  lemma EndIsOneLine(style: Style)
    ensures NoNewline(End(style)) && |End(style)| > 1
  {
  }

  /** Main result. Writing `env1` and then `env2` gives what writing `env2` alone gives, if and
      only if no written setting of `env1` contains the end marker; the second write never fails. */
  lemma LastWriteWins(style: Style, env1: map<string, string>, env2: map<string, string>, text: string)
    requires EndFollowsBegin(text, Begin(style), End(style))
    ensures Rewrite(style, env1, text).Ok?
    ensures var once := Rewrite(style, env1, text).text;
            && Rewrite(style, env2, once).Ok?
            && (Rewrite(style, env2, once) == Rewrite(style, env2, text)
                <==> !SomeSettingContains(env1, End(style)))
  {
    WritableExactly(style, env1, text);
    var lines := LinesOf(style, env1, KEYS);
    LinesAreSafe(style, env1, KEYS);
    ValuesAreSettings(style, env1, KEYS, End(style));
    EndIsOneLine(style);
    SpliceTwice(text, Begin(style), End(style), lines, Body(LinesOf(style, env2, KEYS)));
  }

  /** A model name that holds the end marker leaves part of itself behind. */
  lemma LeftoverSetting(style: Style, text: string)
    requires EndFollowsBegin(text, Begin(style), End(style))
    ensures var env := map["RFV_DLL_MODEL" := End(style)];
            && Rewrite(style, env, text).Ok?
            && Rewrite(style, map[], Rewrite(style, env, text).text) != Rewrite(style, map[], text)
  {
    var env := map["RFV_DLL_MODEL" := End(style)];
    assert KEYS[2] in KEYS && OccursAt(env[KEYS[2]], End(style), 0);
    LastWriteWins(style, env, map[], text);
  }

  // ---------------------------------------------------------------- the block, spelled out

  /** One assignment, if the environment has the key. */
  function Assignment(env: map<string, string>, key: string, before: string): string {
    if key in env then before + env[key] + "\n" else ""
  }

  lemma RenderFirst(style: Style, env: map<string, string>, key: string, rest: seq<string>)
    ensures Render(LinesOf(style, env, [key] + rest))
            == Assignment(env, key, Head(style, key)) + Render(LinesOf(style, env, rest))
  {
    hide Head;
    assert ([key] + rest)[1..] == rest;
    var lines := LinesOf(style, env, rest);
    if key in env {
      var line := Line(Head(style, key), env[key]);
      assert ([line] + lines)[1..] == lines;
    } else {
      assert [] + lines == lines && "" + Render(lines) == Render(lines);
    }
  }

  lemma HeadSpelled(key: string)
    ensures Head(Bat, key) == "SET " + key + "=" && Head(Sh, key) == "export " + key + "="
  {
  }

  /** The assignments of the three keys, in order, each after `word`. */
  function Assignments(env: map<string, string>, word: string): string {
    Assignment(env, "RFV_VEHICLE_NUM", word + "RFV_VEHICLE_NUM" + "=")
    + (Assignment(env, "RFV_START_INDEX", word + "RFV_START_INDEX" + "=")
       + Assignment(env, "RFV_DLL_MODEL", word + "RFV_DLL_MODEL" + "="))
  }

  lemma BodySpelled(env: map<string, string>)
    ensures Body(LinesOf(Bat, env, KEYS)) == "\n" + Assignments(env, "SET ")
    ensures Body(LinesOf(Sh, env, KEYS)) == "\n" + Assignments(env, "export ")
  {
    BodyOfKeys(Bat, env, "RFV_VEHICLE_NUM", "RFV_START_INDEX", "RFV_DLL_MODEL");
    BodyOfKeys(Sh, env, "RFV_VEHICLE_NUM", "RFV_START_INDEX", "RFV_DLL_MODEL");
    HeadSpelled("RFV_VEHICLE_NUM");
    HeadSpelled("RFV_START_INDEX");
    HeadSpelled("RFV_DLL_MODEL");
  }

  lemma BodyOfKeys(style: Style, env: map<string, string>, a: string, b: string, c: string)
    ensures Body(LinesOf(style, env, [a, b, c]))
            == "\n" + (Assignment(env, a, Head(style, a))
                       + (Assignment(env, b, Head(style, b)) + Assignment(env, c, Head(style, c))))
  {
    hide Head, Assignment, Render, LinesOf;
    var none: seq<string> := [];
    assert [a, b, c] == [a] + [b, c] && [b, c] == [b] + [c] && [c] == [c] + none;
    RenderFirst(style, env, a, [b, c]);
    RenderFirst(style, env, b, [c]);
    RenderFirst(style, env, c, []);
    NoLines(style, env);
    assert Assignment(env, c, Head(style, c)) + "" == Assignment(env, c, Head(style, c));
  }

  lemma MarkersSpelled()
    ensures Begin(Bat) == "REM BEGIN RFV_RUNTIME_CONFIG" && End(Bat) == "REM END RFV_RUNTIME_CONFIG"
    ensures Begin(Sh) == "# BEGIN RFV_RUNTIME_CONFIG" && End(Sh) == "# END RFV_RUNTIME_CONFIG"
  {
  }

  /** A rewritten batch file, spelled out: only the lines between its markers change. */
  lemma BatchScript(env: map<string, string>, text: string) returns (before: string, replaced: string, after: string)
    requires EndFollowsBegin(text, "REM BEGIN RFV_RUNTIME_CONFIG", "REM END RFV_RUNTIME_CONFIG")
    ensures text == before + ("REM BEGIN RFV_RUNTIME_CONFIG" + (replaced + ("REM END RFV_RUNTIME_CONFIG" + after)))
    ensures Rewrite(Bat, env, text)
            == Ok(before + ("REM BEGIN RFV_RUNTIME_CONFIG"
                            + (("\n" + Assignments(env, "SET ")) + ("REM END RFV_RUNTIME_CONFIG" + after))))
  {
    hide Begin, End, Body, Assignments, Rewrite;
    MarkersSpelled();
    BodySpelled(env);
    before, replaced, after := OutsideUnchanged(Bat, env, text);
  }

  /** And a rewritten shell script. */
  lemma ShellScript(env: map<string, string>, text: string) returns (before: string, replaced: string, after: string)
    requires EndFollowsBegin(text, "# BEGIN RFV_RUNTIME_CONFIG", "# END RFV_RUNTIME_CONFIG")
    ensures text == before + ("# BEGIN RFV_RUNTIME_CONFIG" + (replaced + ("# END RFV_RUNTIME_CONFIG" + after)))
    ensures Rewrite(Sh, env, text)
            == Ok(before + ("# BEGIN RFV_RUNTIME_CONFIG"
                            + (("\n" + Assignments(env, "export ")) + ("# END RFV_RUNTIME_CONFIG" + after))))
  {
    hide Begin, End, Body, Assignments, Rewrite;
    MarkersSpelled();
    BodySpelled(env);
    before, replaced, after := OutsideUnchanged(Sh, env, text);
  }

  // ---------------------------------------------------------------- the writers

  method JoinLines(style: Style, env: map<string, string>, keys: seq<string>)
    returns (block: string)
    ensures block == Begin(style) + (Body(LinesOf(style, env, keys)) + End(style))
  {
    hide LinesOf, Render, Body, Begin, End, Head;
    var body := "\n";
    ghost var whole := Body(LinesOf(style, env, keys));
    assert keys[0..] == keys;
    BodyIs(LinesOf(style, env, keys));
    for k := 0 to |keys|
      invariant body + Render(LinesOf(style, env, keys[k..])) == whole
    {
      ghost var todo := keys[k..];
      RenderStep(style, env, todo, body);
      assert todo[0] == keys[k] && todo[1..] == keys[k + 1..];
      if keys[k] in env {
        body := body + (Head(style, keys[k]) + env[keys[k]] + "\n");
      }
    }
    assert keys[|keys|..] == [];
    NoLines(style, env);
    block := Begin(style) + (body + End(style));
  }

  lemma BodyIs(lines: seq<Line>)
    ensures "\n" + Render(lines) == Body(lines)
  {
  }

  lemma NoLines(style: Style, env: map<string, string>)
    ensures Render(LinesOf(style, env, [])) == ""
  {
  }

  lemma RenderStep(style: Style, env: map<string, string>, keys: seq<string>, body: string)
    requires keys != []
    ensures var rest := Render(LinesOf(style, env, keys[1..]));
            body + Render(LinesOf(style, env, keys))
            == if keys[0] in env then body + (Head(style, keys[0]) + env[keys[0]] + "\n") + rest
               else body + rest
  {
    var rest := LinesOf(style, env, keys[1..]);
    if keys[0] in env {
      var lines := LinesOf(style, env, keys);
      assert lines == [Line(Head(style, keys[0]), env[keys[0]])] + rest;
      assert lines[1..] == rest;
      Assoc(body, Head(style, keys[0]) + env[keys[0]] + "\n", Render(rest));
    } else {
      assert LinesOf(style, env, keys) == rest;
    }
  }

  /** `_write_runtime_config_to_bat` and `_write_runtime_config_to_sh`: the text read from the
      script in, the text written to it out. */
  method WriteRuntimeConfig(style: Style, env: map<string, string>, text: string) returns (r: Result)
    ensures r == Rewrite(style, env, text)
  {
    var b, e := Begin(style), End(style);
    var block := JoinLines(style, env, KEYS);
    var i, any := First(text, b), First(text, e);
    if i < 0 || any < 0 {
      return MissingMarkers;
    }
    var rest := text[i..][|b|..];
    var j := First(rest, e);
    if j < 0 {
      return MissingMarkers;
    }
    r := Ok(text[..i] + (block + rest[j..][|e|..]));
    Assoc(b, Body(LinesOf(style, env, KEYS)) + e, rest[j..][|e|..]);
    Assoc(Body(LinesOf(style, env, KEYS)), e, rest[j..][|e|..]);
  }
}
