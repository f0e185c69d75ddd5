/**
 Tag patterns: a tag is escaped, quoted and put between wildcards, and the pattern is matched, with
 a backslash as the escape, against the JSON array in which an article stores its tags.
*/
module TagSearch {
  import opened Wrappers

  /** How the database compares one pattern character with one text character. */
  type CharEq = (char, char) -> bool

  const ESCAPE := '\\'

  /** `text LIKE pattern ESCAPE escape` for an escape of one character, section 8.5 of ISO/IEC 9075-2. */
  predicate Matches(pattern: string, text: string, escape: char, eq: CharEq)
    decreases |pattern| + |text|
  {
    if pattern == "" then text == ""
    else if pattern[0] == escape then
      |pattern| > 1 && text != "" && eq(pattern[1], text[0]) && Matches(pattern[2..], text[1..], escape, eq)
    else if pattern[0] == '%' then
      Matches(pattern[1..], text, escape, eq) || (text != "" && Matches(pattern, text[1..], escape, eq))
    else if pattern[0] == '_' then
      text != "" && Matches(pattern[1..], text[1..], escape, eq)
    else
      text != "" && eq(pattern[0], text[0]) && Matches(pattern[1..], text[1..], escape, eq)
  }

  /** An underscore stands for one character, whichever it is, and an escaped character for itself. */
  lemma OneCharacterMatchesIff(p: string, c: char, text: string, escape: char, eq: CharEq)
    ensures escape != '_' ==>
              (Matches("_" + p, text, escape, eq) <==> text != "" && Matches(p, text[1..], escape, eq))
    ensures Matches([escape, c] + p, text, escape, eq) <==> text != "" && eq(c, text[0]) && Matches(p, text[1..], escape, eq)
  {
    assert ("_" + p)[1..] == p && ([escape, c] + p)[2..] == p;
  }

  // ----- the escape, as the source writes it

  /** `str::replace` of one character. */
  function Replace(s: string, c: char, to: string): string {
    if s == "" then "" else (if s[0] == c then to else [s[0]]) + Replace(s[1..], c, to)
  }

  function EscapeLike(input: string): string {
    Replace(Replace(Replace(input, '\\', "\\\\"), '%', "\\%"), '_', "\\_")
  }

  function TagLikePattern(tag: string): string {
    "%\"" + EscapeLike(tag) + "\"%"
  }

  // ----- one pass

  predicate IsSpecial(c: char) {
    c == '\\' || c == '%' || c == '_'
  }

  function EscapeOnce(s: string): string {
    if s == "" then "" else (if IsSpecial(s[0]) then ['\\', s[0]] else [s[0]]) + EscapeOnce(s[1..])
  }

  lemma {:induction false} ReplaceConcat(a: string, b: string, c: char, to: string)
    ensures Replace(a + b, c, to) == Replace(a, c, to) + Replace(b, c, to)
  {
    if a == "" {
      assert a + b == b;
    } else {
      assert (a + b)[1..] == a[1..] + b;
      ReplaceConcat(a[1..], b, c, to);
    }
  }

  lemma ReplaceChar(x: char, c: char, to: string)
    ensures Replace([x], c, to) == if x == c then to else [x]
  {
    assert [x][1..] == "";
  }

  lemma ReplacePair(x: char, y: char, c: char, to: string)
    ensures Replace([x, y], c, to) == (if x == c then to else [x]) + (if y == c then to else [y])
  {
    assert [x, y] == [x] + [y];
    ReplaceConcat([x], [y], c, to);
    ReplaceChar(x, c, to);
    ReplaceChar(y, c, to);
  }

  lemma EscapeLikeConcat(a: string, b: string)
    ensures EscapeLike(a + b) == EscapeLike(a) + EscapeLike(b)
  {
    ReplaceConcat(a, b, '\\', "\\\\");
    var a1, b1 := Replace(a, '\\', "\\\\"), Replace(b, '\\', "\\\\");
    ReplaceConcat(a1, b1, '%', "\\%");
    ReplaceConcat(Replace(a1, '%', "\\%"), Replace(b1, '%', "\\%"), '_', "\\_");
  }

  lemma EscapeLikeChar(x: char)
    ensures EscapeLike([x]) == if IsSpecial(x) then ['\\', x] else [x]
  {
    ReplaceChar(x, '\\', "\\\\");
    if x == '\\' {
      ReplacePair('\\', '\\', '%', "\\%");
      ReplacePair('\\', '\\', '_', "\\_");
    } else {
      ReplaceChar(x, '%', "\\%");
      if x == '%' {
        ReplacePair('\\', '%', '_', "\\_");
      } else {
        ReplaceChar(x, '_', "\\_");
      }
    }
  }

  /** The three replacements amount to one pass over the input. */
  lemma {:induction false} EscapeLikeIsOnePass(s: string)
    ensures EscapeLike(s) == EscapeOnce(s)
  {
    if s == "" {
      assert EscapeLike("") == "";
    } else {
      EscapeLikeIsOnePass(s[1..]);
      assert s == [s[0]] + s[1..];
      EscapeLikeConcat([s[0]], s[1..]);
      EscapeLikeChar(s[0]);
    }
  }

  // ----- why the backslash goes first

  function BackslashLast(input: string): string {
    Replace(Replace(Replace(input, '%', "\\%"), '_', "\\_"), '\\', "\\\\")
  }

  function Wildcards(s: string): nat {
    if s == "" then 0 else (if s[0] == '%' || s[0] == '_' then 1 else 0) + Wildcards(s[1..])
  }

  lemma BackslashLastConcat(a: string, b: string)
    ensures BackslashLast(a + b) == BackslashLast(a) + BackslashLast(b)
  {
    ReplaceConcat(a, b, '%', "\\%");
    var a1, b1 := Replace(a, '%', "\\%"), Replace(b, '%', "\\%");
    ReplaceConcat(a1, b1, '_', "\\_");
    ReplaceConcat(Replace(a1, '_', "\\_"), Replace(b1, '_', "\\_"), '\\', "\\\\");
  }

  lemma BackslashLastChar(x: char)
    ensures BackslashLast([x]) == if x == '\\' then "\\\\" else if IsSpecial(x) then ['\\', '\\', x] else [x]
  {
    ReplaceChar(x, '%', "\\%");
    if x == '%' {
      ReplacePair('\\', '%', '_', "\\_");
      ReplacePair('\\', '%', '\\', "\\\\");
    } else {
      ReplaceChar(x, '_', "\\_");
      if x == '_' {
        ReplacePair('\\', '_', '\\', "\\\\");
      } else {
        ReplaceChar(x, '\\', "\\\\");
      }
    }
  }

  lemma {:induction false} BackslashLastLength(s: string)
    ensures |BackslashLast(s)| == |EscapeOnce(s)| + Wildcards(s)
    ensures Wildcards(s) == 0 ==> BackslashLast(s) == EscapeOnce(s)
  {
    if s == "" {
      assert BackslashLast("") == "";
    } else {
      BackslashLastLength(s[1..]);
      assert s == [s[0]] + s[1..];
      BackslashLastConcat([s[0]], s[1..]);
      BackslashLastChar(s[0]);
    }
  }

  /** Escaping the backslash after the wildcards gives the same pattern only if there are none. */
  lemma OrderMattersIff(s: string)
    ensures BackslashLast(s) == EscapeLike(s) <==> Wildcards(s) == 0
  {
    EscapeLikeIsOnePass(s);
    BackslashLastLength(s);
  }

  // ----- what the pattern matches

  predicate Prefix(w: string, text: string, eq: CharEq) {
    |w| <= |text| && forall j :: 0 <= j < |w| ==> eq(w[j], text[j])
  }

  predicate Occurs(w: string, text: string, eq: CharEq) {
    exists i :: 0 <= i <= |text| && Prefix(w, text[i..], eq)
  }

  lemma {:induction false} LikeEscaped(w: string, p: string, text: string, eq: CharEq)
    ensures Matches(EscapeOnce(w) + p, text, ESCAPE, eq) <==> Prefix(w, text, eq) && Matches(p, text[|w|..], ESCAPE, eq)
  {
    if w == "" {
      assert EscapeOnce(w) + p == p && text[0..] == text;
    } else {
      var q := EscapeOnce(w) + p;
      var rest := EscapeOnce(w[1..]) + p;
      if IsSpecial(w[0]) {
        assert q == ['\\', w[0]] + rest && q[2..] == rest;
      } else {
        assert q == [w[0]] + rest && q[1..] == rest;
      }
      assert Matches(q, text, ESCAPE, eq) <==> text != "" && eq(w[0], text[0]) && Matches(rest, text[1..], ESCAPE, eq);
      if text != "" {
        LikeEscaped(w[1..], p, text[1..], eq);
        PrefixStep(w, text, eq);
        if |w| <= |text| {
          assert text[1..][|w| - 1..] == text[|w|..];
        }
      }
    }
  }

  lemma PrefixStep(w: string, text: string, eq: CharEq)
    requires w != "" && text != ""
    ensures Prefix(w, text, eq) <==> eq(w[0], text[0]) && Prefix(w[1..], text[1..], eq)
  {
    if eq(w[0], text[0]) && Prefix(w[1..], text[1..], eq) {
      forall j | 0 <= j < |w| ensures eq(w[j], text[j]) {
        if j > 0 {
          assert w[j] == w[1..][j - 1] && text[j] == text[1..][j - 1];
        }
      }
    }
    if Prefix(w, text, eq) {
      forall j | 0 <= j < |w[1..]| ensures eq(w[1..][j], text[1..][j]) {
        assert w[1..][j] == w[j + 1] && text[1..][j] == text[j + 1];
      }
    }
  }

  lemma {:induction false} LikeAfterRun(p: string, text: string, eq: CharEq)
    ensures Matches("%" + p, text, ESCAPE, eq) <==> exists i :: 0 <= i <= |text| && Matches(p, text[i..], ESCAPE, eq)
  {
    var q := "%" + p;
    assert q[1..] == p && text[0..] == text;
    if text != "" {
      LikeAfterRun(p, text[1..], eq);
      if Matches(q, text[1..], ESCAPE, eq) {
        var i :| 0 <= i <= |text[1..]| && Matches(p, text[1..][i..], ESCAPE, eq);
        assert text[1..][i..] == text[i + 1..];
      }
      if i :| 0 <= i <= |text| && Matches(p, text[i..], ESCAPE, eq) {
        if i > 0 {
          assert text[1..][i - 1..] == text[i..];
        }
      }
    }
  }

  lemma LikeRun(text: string, eq: CharEq)
    ensures Matches("%", text, ESCAPE, eq)
  {
    LikeAfterRun("", text, eq);
    assert "%" + "" == "%" && text[|text|..] == "";
  }

  function Quoted(tag: string): string {
    "\"" + tag + "\""
  }

  /**
   For every tag, wildcards and backslashes included: the pattern matches exactly the texts that
   hold the quoted tag, character by character in the comparison the database uses.
  */
  lemma PatternMatchesIff(tag: string, text: string, eq: CharEq)
    ensures Matches(TagLikePattern(tag), text, ESCAPE, eq) <==> Occurs(Quoted(tag), text, eq)
  {
    QuotedPattern(tag);
    LikeAfterRun(EscapeOnce(Quoted(tag)) + "%", text, eq);
    forall i | 0 <= i <= |text|
      ensures Matches(EscapeOnce(Quoted(tag)) + "%", text[i..], ESCAPE, eq) <==> Prefix(Quoted(tag), text[i..], eq)
    {
      LikeEscaped(Quoted(tag), "%", text[i..], eq);
      if Prefix(Quoted(tag), text[i..], eq) {
        LikeRun(text[i..][|Quoted(tag)|..], eq);
      }
    }
  }

  lemma QuotedPattern(tag: string)
    ensures TagLikePattern(tag) == "%" + (EscapeOnce(Quoted(tag)) + "%")
  {
    EscapeLikeIsOnePass(tag);
    EscapeLikeIsOnePass("\"");
    EscapeLikeIsOnePass(tag + "\"");
    EscapeLikeIsOnePass(Quoted(tag));
    EscapeLikeConcat(tag, "\"");
    EscapeLikeConcat("\"", tag + "\"");
    assert Quoted(tag) == "\"" + (tag + "\"");
    assert EscapeOnce("\"") == "\"" by { assert "\""[1..] == ""; }
  }

  // ----- the stored tags

  function Hex(d: nat): char
    requires d < 16
  {
    if d < 10 then ('0' as int + d) as char else ('a' as int + d - 10) as char
  }

  /** One character of a JSON string, as the serializer writes it. */
  function JsonChar(c: char): string {
    if c == '"' then "\\\""
    else if c == '\\' then "\\\\"
    else if c == '\n' then "\\n"
    else if c == '\r' then "\\r"
    else if c == '\t' then "\\t"
    else if c as int == 8 then "\\b"
    else if c as int == 12 then "\\f"
    else if c < ' ' then "\\u00" + [Hex(c as int / 16), Hex(c as int % 16)]
    else [c]
  }

  function JsonText(s: string): string {
    if s == "" then "" else JsonChar(s[0]) + JsonText(s[1..])
  }

  function JsonRest(tags: seq<string>): string {
    if tags == [] then "]" else "," + Quoted(JsonText(tags[0])) + JsonRest(tags[1..])
  }

  /** The JSON array of a list of tags. */
  function JsonTags(tags: seq<string>): string {
    if tags == [] then "[]" else "[" + Quoted(JsonText(tags[0])) + JsonRest(tags[1..])
  }

  function HexValue(c: char): Option<nat> {
    if '0' <= c <= '9' then Some(c as int - '0' as int)
    else if 'a' <= c <= 'f' then Some(c as int - 'a' as int + 10)
    else None
  }

  /** The character behind a backslash, section 7 of RFC 8259, but for the four hexadecimal digits. */
  function ShortEscape(c: char): Option<char> {
    if c == '"' || c == '\\' || c == '/' then Some(c)
    else if c == 'b' then Some(8 as char)
    else if c == 'f' then Some(12 as char)
    else if c == 'n' then Some('\n')
    else if c == 'r' then Some('\r')
    else if c == 't' then Some('\t')
    else None
  }

  /** The text that the inside of a JSON string denotes; of the hexadecimal escapes those below 256. */
  function JsonDecoded(s: string): Option<string> {
    if s == "" then Some("")
    else if s[0] == '"' || s[0] < ' ' then None
    else if s[0] != '\\' then Before(s[0], JsonDecoded(s[1..]))
    else if |s| >= 6 && s[1] == 'u' then
      var high, low := HexValue(s[4]), HexValue(s[5]);
      if s[2..4] == "00" && high.Some? && low.Some?
      then Before((16 * high.value + low.value) as char, JsonDecoded(s[6..])) else None
    else if |s| >= 2 && ShortEscape(s[1]).Some? then Before(ShortEscape(s[1]).value, JsonDecoded(s[2..]))
    else None
  }

  function Before(c: char, rest: Option<string>): Option<string> {
    if rest.Some? then Some([c] + rest.value) else None
  }

  lemma CharIsReadBack(c: char, rest: string)
    ensures JsonDecoded(JsonChar(c) + rest) == Before(c, JsonDecoded(rest))
  {
    var e := JsonChar(c);
    var s := e + rest;
    if |e| == 1 {
      assert s[1..] == rest;
    } else if |e| == 2 {
      assert s[2..] == rest;
    } else {
      assert c < ' ' && |e| == 6 && s[6..] == rest;
      assert s[2..4] == "00";
      assert HexValue(Hex(c as int / 16)) == Some(c as int / 16) && HexValue(Hex(c as int % 16)) == Some(c as int % 16);
    }
  }

  /** Every tag is read back from its JSON text. */
  lemma {:induction false} JsonTextIsReadBack(s: string)
    ensures JsonDecoded(JsonText(s)) == Some(s)
  {
    if s != "" {
      JsonTextIsReadBack(s[1..]);
      CharIsReadBack(s[0], JsonText(s[1..]));
      assert s == [s[0]] + s[1..];
    }
  }

  // ----- a text as the pieces between its quotes

  function Pieces(s: string): (p: seq<string>)
    ensures p != []
  {
    if s == "" then [""] else Cons(s[0], Pieces(s[1..]))
  }

  /** A quote opens a new piece, any other character goes into the first. */
  function Cons(c: char, p: seq<string>): (q: seq<string>)
    requires p != []
    ensures q != []
  {
    if c == '"' then [""] + p else [[c] + p[0]] + p[1..]
  }

  predicate NoQuote(s: string) {
    forall j :: 0 <= j < |s| ==> s[j] != '"'
  }

  lemma {:induction false} OnePiece(s: string)
    requires NoQuote(s)
    ensures Pieces(s) == [s]
  {
    if s != "" {
      OnePiece(s[1..]);
      assert s == [s[0]] + s[1..];
    }
  }

  /** A comparison that takes a quote for a quote and nothing else for one. */
  ghost predicate KeepsQuotes(eq: CharEq) {
    forall c: char :: (eq('"', c) <==> c == '"') && (eq(c, '"') <==> c == '"')
  }

  predicate SameText(a: string, b: string, eq: CharEq) {
    |a| == |b| && Prefix(a, b, eq)
  }

  /** The texts of `w` stand in `p` one after the other from position `i` on. */
  predicate IsRun(w: seq<string>, p: seq<string>, i: nat, eq: CharEq) {
    i + |w| <= |p| && forall j :: 0 <= j < |w| ==> SameText(w[j], p[i + j], eq)
  }

  lemma SameTextStep(a: char, v: string, b: char, u: string, eq: CharEq)
    ensures SameText([a] + v, [b] + u, eq) <==> eq(a, b) && SameText(v, u, eq)
  {
    assert ([a] + v)[1..] == v && ([b] + u)[1..] == u;
    PrefixStep([a] + v, [b] + u, eq);
  }

  lemma FirstPieceStep(a: char, v: seq<string>, b: char, u: seq<string>, eq: CharEq)
    requires v != [] && u != []
    ensures IsRun([[a] + v[0]] + v[1..], [[b] + u[0]] + u[1..], 0, eq) <==> eq(a, b) && IsRun(v, u, 0, eq)
  {
    SameTextStep(a, v[0], b, u[0], eq);
    var vs, us := [[a] + v[0]] + v[1..], [[b] + u[0]] + u[1..];
    assert vs[0] == [a] + v[0] && us[0] == [b] + u[0];
    assert forall j :: 1 <= j < |v| ==> vs[j] == v[j];
    assert forall j :: 1 <= j < |u| ==> us[j] == u[j];
  }

  lemma EmptyPieceStep(v: seq<string>, u: seq<string>, eq: CharEq)
    ensures IsRun([""] + v, [""] + u, 0, eq) <==> IsRun(v, u, 0, eq)
  {
    if IsRun([""] + v, [""] + u, 0, eq) {
      forall j | 0 <= j < |v| ensures SameText(v[j], u[j], eq) {
        assert ([""] + v)[j + 1] == v[j] && ([""] + u)[j + 1] == u[j];
      }
    }
  }

  lemma EmptyAgainstLetter(v: seq<string>, b: char, u: seq<string>, eq: CharEq)
    requires u != []
    ensures !IsRun([""] + v, [[b] + u[0]] + u[1..], 0, eq)
    ensures !IsRun([[b] + u[0]] + u[1..], [""] + v, 0, eq)
  {
    assert ([""] + v)[0] == "" && ([[b] + u[0]] + u[1..])[0] == [b] + u[0];
  }

  /** A text starts with `w` and a quote exactly when its pieces start with those of `w` and go on. */
  lemma {:induction false} PrefixIsRun(w: string, text: string, eq: CharEq)
    requires KeepsQuotes(eq)
    ensures Prefix(w + "\"", text, eq) <==> |Pieces(w)| < |Pieces(text)| && IsRun(Pieces(w), Pieces(text), 0, eq)
    decreases |w|
  {
    if text != "" {
      var u := Pieces(text[1..]);
      PrefixStep(w + "\"", text, eq);
      if w == "" {
        assert (w + "\"")[1..] == "" && Pieces(w) == [""];
        if text[0] != '"' {
          EmptyAgainstLetter([], text[0], u, eq);
        }
      } else {
        var v := Pieces(w[1..]);
        assert (w + "\"")[0] == w[0] && (w + "\"")[1..] == w[1..] + "\"";
        PrefixIsRun(w[1..], text[1..], eq);
        if w[0] == '"' && text[0] == '"' {
          EmptyPieceStep(v, u, eq);
        } else if w[0] == '"' {
          EmptyAgainstLetter(v, text[0], u, eq);
        } else if text[0] == '"' {
          EmptyAgainstLetter(u, w[0], v, eq);
        } else {
          FirstPieceStep(w[0], v, text[0], u, eq);
        }
      }
    }
  }

  ghost predicate HasRun(w: seq<string>, p: seq<string>, eq: CharEq) {
    exists i: nat :: IsRun(w, p, i, eq)
  }

  /** The run starts after the first piece and ends before the last. */
  ghost predicate HasInnerRun(w: seq<string>, p: seq<string>, eq: CharEq) {
    exists i: nat :: 1 <= i && i + |w| < |p| && IsRun(w, p, i, eq)
  }

  lemma RunInRest(w: seq<string>, first: string, p: seq<string>, i: nat, eq: CharEq)
    ensures IsRun(w, [first] + p, i + 1, eq) <==> IsRun(w, p, i, eq)
  {
    assert forall j :: 0 <= j < |p| ==> ([first] + p)[j + 1] == p[j];
    if IsRun(w, [first] + p, i + 1, eq) {
      forall j | 0 <= j < |w| ensures SameText(w[j], p[i + j], eq) {
        assert ([first] + p)[i + 1 + j] == p[i + j];
      }
    }
    if IsRun(w, p, i, eq) {
      forall j | 0 <= j < |w| ensures SameText(w[j], ([first] + p)[i + 1 + j], eq) {
        assert ([first] + p)[i + 1 + j] == p[i + j];
      }
    }
  }

  lemma InnerRunAfterQuote(w: seq<string>, p: seq<string>, eq: CharEq)
    requires w != [] && p != []
    ensures HasInnerRun(w, [""] + p, eq) <==> (|w| < |p| && IsRun(w, p, 0, eq)) || HasInnerRun(w, p, eq)
  {
    if i: nat :| 1 <= i && i + |w| < |[""] + p| && IsRun(w, [""] + p, i, eq) {
      RunInRest(w, "", p, i - 1, eq);
    }
    if |w| < |p| && IsRun(w, p, 0, eq) {
      RunInRest(w, "", p, 0, eq);
    }
    if i: nat :| 1 <= i && i + |w| < |p| && IsRun(w, p, i, eq) {
      RunInRest(w, "", p, i, eq);
    }
  }

  lemma InnerRunAfterLetter(w: seq<string>, first: string, p: seq<string>, eq: CharEq)
    requires p != []
    ensures HasInnerRun(w, [first] + p[1..], eq) <==> HasInnerRun(w, p, eq)
  {
    var q := [first] + p[1..];
    forall i: nat | 1 <= i && i + |w| < |p| ensures IsRun(w, q, i, eq) <==> IsRun(w, p, i, eq) {
      forall j | 0 <= j < |w| ensures SameText(w[j], q[i + j], eq) <==> SameText(w[j], p[i + j], eq) {}
    }
  }

  lemma OccursStep(w: string, text: string, eq: CharEq)
    requires KeepsQuotes(eq) && text != ""
    ensures Occurs(Quoted(w), text, eq)
       <==> (text[0] == '"' && Prefix(w + "\"", text[1..], eq)) || Occurs(Quoted(w), text[1..], eq)
  {
    var q := Quoted(w);
    assert q[1..] == w + "\"" && text[0..] == text;
    PrefixStep(q, text, eq);
    if i :| 0 <= i <= |text| && Prefix(q, text[i..], eq) {
      if i > 0 {
        assert text[i..] == text[1..][i - 1..];
      }
    }
    if i :| 0 <= i <= |text[1..]| && Prefix(q, text[1..][i..], eq) {
      assert text[i + 1..] == text[1..][i..];
    }
    if text[0] == '"' && Prefix(w + "\"", text[1..], eq) {
      assert Prefix(q, text[0..], eq);
    }
  }

  /** A quoted text occurs exactly where its pieces run between two quotes. */
  lemma {:induction false} OccursIsInnerRun(w: string, text: string, eq: CharEq)
    requires KeepsQuotes(eq)
    ensures Occurs(Quoted(w), text, eq) <==> HasInnerRun(Pieces(w), Pieces(text), eq)
    decreases |text|
  {
    if text == "" {
      assert forall i :: 0 <= i <= |text| ==> |text[i..]| == 0;
    } else {
      var p := Pieces(text[1..]);
      OccursStep(w, text, eq);
      OccursIsInnerRun(w, text[1..], eq);
      PrefixIsRun(w, text[1..], eq);
      if text[0] == '"' {
        InnerRunAfterQuote(Pieces(w), p, eq);
      } else {
        InnerRunAfterLetter(Pieces(w), [text[0]] + p[0], p, eq);
      }
    }
  }

  // ----- the pieces of the stored text

  lemma ConsConcat(c: char, p: seq<string>, q: seq<string>)
    requires p != []
    ensures Cons(c, p + q) == Cons(c, p) + q
  {
    assert (p + q)[1..] == p[1..] + q;
  }

  lemma {:induction false} PiecesAtQuote(a: string, b: string)
    ensures Pieces(a + ("\"" + b)) == Pieces(a) + Pieces(b)
  {
    var tail := "\"" + b;
    if a == "" {
      assert a + tail == tail && tail[1..] == b;
    } else {
      assert (a + tail)[0] == a[0] && (a + tail)[1..] == a[1..] + tail;
      PiecesAtQuote(a[1..], b);
      ConsConcat(a[0], Pieces(a[1..]), Pieces(b));
    }
  }

  lemma QuotedBetween(pre: string, j: string, rest: string)
    ensures pre + Quoted(j) + rest == pre + ("\"" + (j + ("\"" + rest)))
  {}

  lemma PiecesAroundQuoted(pre: string, j: string, rest: string)
    ensures Pieces(pre + Quoted(j) + rest) == Pieces(pre) + (Pieces(j) + Pieces(rest))
  {
    QuotedBetween(pre, j, rest);
    PiecesAtQuote(pre, j + ("\"" + rest));
    PiecesAtQuote(j, rest);
  }

  /** What stands between two quotes of the stored text: the tags in JSON, with commas in between. */
  function StoredPieces(tags: seq<string>): seq<string>
    decreases |tags|, 0
  {
    if tags == [] then [] else Pieces(JsonText(tags[0])) + AfterComma(tags[1..])
  }

  function AfterComma(tags: seq<string>): seq<string>
    decreases |tags|, 1
  {
    if tags == [] then [] else [","] + StoredPieces(tags)
  }

  lemma Regroup(a: seq<string>, b: seq<string>, c: seq<string>, d: seq<string>)
    ensures a + (b + (c + d)) == a + (b + c) + d
  {}

  lemma {:induction false} PiecesOfRest(tags: seq<string>)
    ensures Pieces(JsonRest(tags)) == AfterComma(tags) + ["]"]
  {
    if tags == [] {
      OnePiece("]");
    } else {
      PiecesOfRest(tags[1..]);
      PiecesAroundQuoted(",", JsonText(tags[0]), JsonRest(tags[1..]));
      OnePiece(",");
      Regroup([","], Pieces(JsonText(tags[0])), AfterComma(tags[1..]), ["]"]);
    }
  }

  lemma PiecesOfStored(tags: seq<string>)
    requires tags != []
    ensures Pieces(JsonTags(tags)) == ["["] + StoredPieces(tags) + ["]"]
  {
    PiecesOfRest(tags[1..]);
    PiecesAroundQuoted("[", JsonText(tags[0]), JsonRest(tags[1..]));
    OnePiece("[");
    Regroup(["["], Pieces(JsonText(tags[0])), AfterComma(tags[1..]), ["]"]);
  }

  lemma InnerRunBetween(w: seq<string>, p: seq<string>, eq: CharEq)
    requires w != []
    ensures HasInnerRun(w, ["["] + p + ["]"], eq) <==> HasRun(w, p, eq)
  {
    var q := ["["] + p + ["]"];
    assert forall j :: 0 <= j < |p| ==> q[j + 1] == p[j];
    if i: nat :| 1 <= i && i + |w| < |q| && IsRun(w, q, i, eq) {
      forall j | 0 <= j < |w| ensures SameText(w[j], p[i - 1 + j], eq) {
        assert q[i + j] == p[i - 1 + j];
      }
      assert IsRun(w, p, i - 1, eq);
    }
    if i: nat :| IsRun(w, p, i, eq) {
      forall j | 0 <= j < |w| ensures SameText(w[j], q[i + 1 + j], eq) {
        assert q[i + 1 + j] == p[i + j];
      }
      assert IsRun(w, q, i + 1, eq);
    }
  }

  /**
   Which stored lists a search finds, for every tag and every list, quotes, backslashes and control
   characters included: the pieces of the tag run through the stored pieces.
  */
  lemma TagSearchIff(tag: string, tags: seq<string>, eq: CharEq)
    requires KeepsQuotes(eq)
    ensures Matches(TagLikePattern(tag), JsonTags(tags), ESCAPE, eq) <==> HasRun(Pieces(tag), StoredPieces(tags), eq)
  {
    PatternMatchesIff(tag, JsonTags(tags), eq);
    OccursIsInnerRun(tag, JsonTags(tags), eq);
    if tags == [] {
      OnePiece("[]");
    } else {
      PiecesOfStored(tags);
      InnerRunBetween(Pieces(tag), StoredPieces(tags), eq);
    }
  }

  // ----- plain tags

  predicate PlainChar(c: char) {
    c != '"' && c != '\\' && c >= ' '
  }

  /** A tag the serializer writes as it is. */
  predicate Plain(tag: string) {
    forall j :: 0 <= j < |tag| ==> PlainChar(tag[j])
  }

  ghost predicate InSomeTag(p: string, tags: seq<string>) {
    exists t :: t in tags && p in Pieces(JsonText(t))
  }

  lemma InSomeTagStep(p: string, tags: seq<string>)
    requires tags != []
    ensures InSomeTag(p, tags) <==> p in Pieces(JsonText(tags[0])) || InSomeTag(p, tags[1..])
  {
    assert tags == [tags[0]] + tags[1..];
  }

  lemma {:induction false} StoredPiecesAre(tags: seq<string>, p: string)
    ensures p in StoredPieces(tags) <==> InSomeTag(p, tags) || (|tags| > 1 && p == ",")
  {
    if tags != [] {
      InSomeTagStep(p, tags);
      StoredPiecesAre(tags[1..], p);
      assert p in AfterComma(tags[1..]) <==> |tags| > 1 && (p == "," || p in StoredPieces(tags[1..]));
    }
  }

  ghost predicate HasPiece(tag: string, p: seq<string>, eq: CharEq) {
    exists x :: x in p && SameText(tag, x, eq)
  }

  /** A tag without quotes is found exactly when it is one of the stored pieces. */
  lemma QuoteFreeSearchIff(tag: string, tags: seq<string>, eq: CharEq)
    requires KeepsQuotes(eq) && NoQuote(tag)
    ensures Matches(TagLikePattern(tag), JsonTags(tags), ESCAPE, eq)
       <==> (exists t :: t in tags && HasPiece(tag, Pieces(JsonText(t)), eq))
            || (|tags| > 1 && SameText(tag, ",", eq))
  {
    TagSearchIff(tag, tags, eq);
    OnePiece(tag);
    var stored := StoredPieces(tags);
    if i: nat :| IsRun([tag], stored, i, eq) {
      assert SameText([tag][0], stored[i + 0], eq) && stored[i] in stored;
      StoredPiecesAre(tags, stored[i]);
    }
    if t :| t in tags && HasPiece(tag, Pieces(JsonText(t)), eq) {
      var p :| p in Pieces(JsonText(t)) && SameText(tag, p, eq);
      StoredPiecesAre(tags, p);
      SinglePieceRuns(tag, stored, p, eq);
    }
    if |tags| > 1 && SameText(tag, ",", eq) {
      StoredPiecesAre(tags, ",");
      SinglePieceRuns(tag, stored, ",", eq);
    }
  }

  lemma SinglePieceRuns(tag: string, stored: seq<string>, p: string, eq: CharEq)
    requires p in stored && SameText(tag, p, eq)
    ensures HasRun([tag], stored, eq)
  {
    var i :| 0 <= i < |stored| && stored[i] == p;
    assert IsRun([tag], stored, i, eq);
  }

  /** The serializer writes more than one character for what is not plain, and a backslash first. */
  lemma JsonCharIs(c: char)
    ensures PlainChar(c) ==> JsonChar(c) == [c]
    ensures !PlainChar(c) ==> |JsonChar(c)| >= 2 && JsonChar(c)[0] == '\\'
    ensures c != '"' ==> NoQuote(JsonChar(c))
  {}

  /** A comparison that takes plain characters for plain ones only. */
  ghost predicate KeepsPlain(eq: CharEq) {
    forall a: char, b: char :: eq(a, b) ==> (PlainChar(a) <==> PlainChar(b))
  }

  lemma {:induction false} PiecesOfConcat(a: string, b: string)
    requires NoQuote(a)
    ensures Pieces(a + b) == [a + Pieces(b)[0]] + Pieces(b)[1..]
  {
    if a == "" {
      assert a + b == b && "" + Pieces(b)[0] == Pieces(b)[0];
    } else {
      assert (a + b)[0] == a[0] && (a + b)[1..] == a[1..] + b;
      PiecesOfConcat(a[1..], b);
      assert [a[0]] + (a[1..] + Pieces(b)[0]) == a + Pieces(b)[0];
    }
  }

  /** The pieces of a tag in JSON, one character at a time. */
  lemma PiecesOfJson(t: string)
    requires t != ""
    ensures var rest := Pieces(JsonText(t[1..]));
            Pieces(JsonText(t)) == if t[0] == '"' then ["\\"] + rest else [JsonChar(t[0]) + rest[0]] + rest[1..]
  {
    var rest := JsonText(t[1..]);
    if t[0] == '"' {
      assert JsonText(t) == "\\" + ("\"" + rest);
      PiecesAtQuote("\\", rest);
      OnePiece("\\");
    } else {
      JsonCharIs(t[0]);
      PiecesOfConcat(JsonChar(t[0]), rest);
    }
  }

  lemma PlainStartsPlain(tag: string, text: string, eq: CharEq)
    requires KeepsPlain(eq) && Plain(tag) && text != "" && !PlainChar(text[0])
    ensures !SameText(tag, text, eq)
  {
    if tag != "" {
      var a, b := tag[0], text[0];
      assert PlainChar(a) && !PlainChar(b) && !eq(a, b);
    }
  }

  lemma FirstPieceStarts(t: string)
    requires t != ""
    ensures var first := Pieces(JsonText(t))[0];
            if PlainChar(t[0]) then first == [t[0]] + Pieces(JsonText(t[1..]))[0] else first != "" && !PlainChar(first[0])
  {
    PiecesOfJson(t);
    JsonCharIs(t[0]);
  }

  lemma SameAfterFirst(tag: string, t: string, rest: string, eq: CharEq)
    requires tag != "" && t != "" && (SameText(tag[1..], rest, eq) <==> SameText(tag[1..], t[1..], eq))
    ensures SameText(tag, [t[0]] + rest, eq) <==> SameText(tag, t, eq)
  {
    SameTextStep(tag[0], tag[1..], t[0], rest, eq);
    SameTextStep(tag[0], tag[1..], t[0], t[1..], eq);
    assert tag == [tag[0]] + tag[1..] && t == [t[0]] + t[1..];
  }

  /** The first piece of a tag in JSON is plain only when the tag is. */
  lemma {:induction false} FirstPieceIs(tag: string, t: string, eq: CharEq)
    requires KeepsPlain(eq) && KeepsQuotes(eq) && Plain(tag)
    ensures SameText(tag, Pieces(JsonText(t))[0], eq) <==> SameText(tag, t, eq)
    decreases |t|
  {
    if t != "" {
      FirstPieceStarts(t);
      if PlainChar(t[0]) {
        if tag != "" {
          FirstPieceIs(tag[1..], t[1..], eq);
          SameAfterFirst(tag, t, Pieces(JsonText(t[1..]))[0], eq);
        }
      } else {
        PlainStartsPlain(tag, Pieces(JsonText(t))[0], eq);
        PlainStartsPlain(tag, t, eq);
      }
    }
  }

  /** The text after some quote of the tag. */
  ghost predicate EndsQuoted(tag: string, t: string, eq: CharEq) {
    exists k :: 0 <= k < |t| && t[k] == '"' && SameText(tag, t[k + 1..], eq)
  }

  lemma EndsQuotedStep(tag: string, t: string, eq: CharEq)
    requires t != ""
    ensures EndsQuoted(tag, t, eq) <==> (t[0] == '"' && SameText(tag, t[1..], eq)) || EndsQuoted(tag, t[1..], eq)
  {
    if k :| 0 <= k < |t| && t[k] == '"' && SameText(tag, t[k + 1..], eq) {
      if k > 0 {
        assert t[1..][k - 1] == '"' && t[1..][k..] == t[k + 1..];
      }
    }
    if k :| 0 <= k < |t[1..]| && t[1..][k] == '"' && SameText(tag, t[1..][k + 1..], eq) {
      assert t[k + 1] == '"' && t[k + 2..] == t[1..][k + 1..];
    }
  }

  lemma {:induction false} LaterPiecesAre(tag: string, t: string, eq: CharEq)
    requires KeepsPlain(eq) && KeepsQuotes(eq) && Plain(tag)
    ensures HasPiece(tag, Pieces(JsonText(t))[1..], eq) <==> EndsQuoted(tag, t, eq)
    decreases |t|
  {
    if t != "" {
      PiecesOfJson(t);
      EndsQuotedStep(tag, t, eq);
      LaterPiecesAre(tag, t[1..], eq);
      var rest := Pieces(JsonText(t[1..]));
      if t[0] == '"' {
        FirstPieceIs(tag, t[1..], eq);
        assert Pieces(JsonText(t))[1..] == rest && rest == [rest[0]] + rest[1..];
      } else {
        assert Pieces(JsonText(t))[1..] == rest[1..];
      }
    }
  }

  /** The tags for which a search for a plain tag answers: itself, or one that ends in a quote and it. */
  ghost predicate Answers(tag: string, t: string, eq: CharEq) {
    SameText(tag, t, eq) || EndsQuoted(tag, t, eq)
  }

  /**
   A plain tag is found in any stored list exactly when the list holds it, up to the database's
   comparison, or a tag that ends in a quote and it, or when it is the comma between two tags.
  */
  lemma PlainSearchIff(tag: string, tags: seq<string>, eq: CharEq)
    requires KeepsPlain(eq) && KeepsQuotes(eq) && Plain(tag)
    ensures Matches(TagLikePattern(tag), JsonTags(tags), ESCAPE, eq)
       <==> (exists t :: t in tags && Answers(tag, t, eq)) || (|tags| > 1 && SameText(tag, ",", eq))
  {
    QuoteFreeSearchIff(tag, tags, eq);
    forall t ensures HasPiece(tag, Pieces(JsonText(t)), eq) <==> Answers(tag, t, eq) {
      PiecesAnswer(tag, t, eq);
    }
  }

  lemma PiecesAnswer(tag: string, t: string, eq: CharEq)
    requires KeepsPlain(eq) && KeepsQuotes(eq) && Plain(tag)
    ensures HasPiece(tag, Pieces(JsonText(t)), eq) <==> Answers(tag, t, eq)
  {
    FirstPieceIs(tag, t, eq);
    LaterPiecesAre(tag, t, eq);
    var p := Pieces(JsonText(t));
    assert p == [p[0]] + p[1..];
  }

  predicate Equal(a: char, b: char) {
    a == b
  }

  function FoldAscii(c: char): char {
    if 'A' <= c <= 'Z' then (c as int + 32) as char else c
  }

  /** The comparison SQLite uses for LIKE: ASCII letters without case. */
  predicate EqualAsciiFold(a: char, b: char) {
    FoldAscii(a) == FoldAscii(b)
  }

  const UPPER := "ABCDEFGHIJKLMNOPQRSTUVWXYZ"
  const LOWER := "abcdefghijklmnopqrstuvwxyz"

  /** The capital letters become the small ones, and no other character changes. */
  lemma LettersFold(c: char, k: nat)
    requires k < 26
    ensures FoldAscii(UPPER[k]) == LOWER[k]
    ensures c !in UPPER ==> FoldAscii(c) == c
  {
    if 'A' <= c <= 'Z' {
      assert UPPER[c as int - 'A' as int] == c;
    }
  }

  lemma SameTextIsEqual(a: string, b: string)
    ensures SameText(a, b, Equal) <==> a == b
  {}

  lemma ExactTagSearchIff(tag: string, tags: seq<string>)
    requires Plain(tag)
    ensures Matches(TagLikePattern(tag), JsonTags(tags), ESCAPE, Equal)
       <==> tag in tags || (exists t :: t in tags && EndsQuoted(tag, t, Equal)) || (|tags| > 1 && tag == ",")
  {
    PlainSearchIff(tag, tags, Equal);
    forall t: string ensures SameText(tag, t, Equal) <==> tag == t {
      SameTextIsEqual(tag, t);
    }
  }

  lemma SqliteTagSearchIff(tag: string, tags: seq<string>)
    requires Plain(tag)
    ensures Matches(TagLikePattern(tag), JsonTags(tags), ESCAPE, EqualAsciiFold)
       <==> (exists t :: t in tags && Answers(tag, t, EqualAsciiFold)) || (|tags| > 1 && tag == ",")
  {
    PlainSearchIff(tag, tags, EqualAsciiFold);
  }

  // ----- does a search for a stored tag find it

  lemma {:induction false} PiecesAreInjective(a: string, b: string)
    ensures Pieces(a) == Pieces(b) ==> a == b
  {
    if a != "" && b != "" {
      PiecesAreInjective(a[1..], b[1..]);
      assert a == [a[0]] + a[1..] && b == [b[0]] + b[1..];
      if Pieces(a) == Pieces(b) {
        SamePiecesSameRest(a[0], Pieces(a[1..]), b[0], Pieces(b[1..]));
      }
    } else {
      EmptyHasOneEmptyPiece(a);
      EmptyHasOneEmptyPiece(b);
    }
  }

  lemma EmptyHasOneEmptyPiece(a: string)
    ensures Pieces(a) == [""] <==> a == ""
  {
    if a != "" {
      var p := Pieces(a[1..]);
      assert Pieces(a)[0] == (if a[0] == '"' then "" else [a[0]] + p[0]);
    }
  }

  lemma SamePiecesSameRest(a: char, p: seq<string>, b: char, q: seq<string>)
    requires p != [] && q != [] && Cons(a, p) == Cons(b, q)
    ensures a == b && p == q
  {
    assert Cons(a, p)[0] == Cons(b, q)[0] && Cons(a, p)[1..] == Cons(b, q)[1..];
    if a != '"' {
      assert Cons(a, p)[0] == [a] + p[0] && b != '"';
      assert ([a] + p[0])[1..] == p[0] && ([b] + q[0])[1..] == q[0];
      assert p == [p[0]] + p[1..] && q == [q[0]] + q[1..];
    } else {
      assert Cons(a, p)[0] == "" && b == '"';
      assert ([""] + p)[1..] == p && ([""] + q)[1..] == q;
    }
  }

  lemma {:induction false} JsonKeepsPlainOnly(t: string)
    ensures |JsonText(t)| >= |t| && (JsonText(t) == t <==> Plain(t)) && |Pieces(JsonText(t))| == |Pieces(t)|
    ensures !Plain(t) ==> |JsonText(t)| > |t|
  {
    if t != "" {
      JsonKeepsPlainOnly(t[1..]);
      JsonCharIs(t[0]);
      PiecesOfJson(t);
      assert t == [t[0]] + t[1..];
      assert Plain(t) <==> PlainChar(t[0]) && Plain(t[1..]);
    }
  }

  lemma WholeRunIsSame(p: seq<string>, q: seq<string>, i: nat)
    requires |p| == |q| && IsRun(p, q, i, Equal)
    ensures p == q
  {
    forall j | 0 <= j < |p| ensures p[j] == q[j] {
      assert SameText(p[j], q[i + j], Equal);
      SameTextIsEqual(p[j], q[j]);
    }
  }

  lemma RunOfItself(p: seq<string>)
    ensures IsRun(p, p, 0, Equal)
  {
  }

  /** The search for a stored tag finds it exactly when the serializer writes the tag as it is. */
  lemma StoredTagIsFoundIff(t: string)
    ensures Matches(TagLikePattern(t), JsonTags([t]), ESCAPE, Equal) <==> Plain(t)
  {
    JsonKeepsPlainOnly(t);
    var p, q := Pieces(t), Pieces(JsonText(t));
    assert HasRun(p, q, Equal) <==> Plain(t) by {
      if i: nat :| IsRun(p, q, i, Equal) {
        WholeRunIsSame(p, q, i);
        PiecesAreInjective(t, JsonText(t));
      }
      RunOfItself(p);
    }
    TagSearchIff(t, [t], Equal);
    assert StoredPieces([t]) == q;
  }

  /** A quote in the searched text lets it run across two tags, whatever plain tags they are. */
  lemma QuoteRunsAcrossTags(a: string, b: string)
    requires Plain(a) && Plain(b)
    ensures Matches(TagLikePattern(a + ("\"" + ("," + ("\"" + b)))), JsonTags([a, b]), ESCAPE, Equal)
  {
    var tag := a + ("\"" + ("," + ("\"" + b)));
    TwoTagsPieces(a, b);
    TagSearchIff(tag, [a, b], Equal);
    assert IsRun(Pieces(tag), StoredPieces([a, b]), 0, Equal);
  }

  lemma TwoTagsPieces(a: string, b: string)
    requires Plain(a) && Plain(b)
    ensures Pieces(a + ("\"" + ("," + ("\"" + b)))) == StoredPieces([a, b])
  {
    JsonKeepsPlainOnly(a);
    JsonKeepsPlainOnly(b);
    PiecesAtQuote(a, "," + ("\"" + b));
    PiecesAtQuote(",", b);
    OnePiece(",");
    assert [a, b][1..] == [b] && [b][1..] == [];
    assert StoredPieces([b]) == Pieces(b) + AfterComma([]) == Pieces(b);
  }
}
