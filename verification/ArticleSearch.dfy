/**
 The two article queries that use tag patterns, as they reach the database: the SQL text is what
 the compiler makes of the literals in the source, and the database reads it as SQL.
*/
module ArticleSearch {
  import opened Wrappers
  import opened TagSearch

  // ----- literals

  /**
   A string literal of the source as the compiler reads it: a backslash lets the next character
   stand for itself. The escapes that name another character do not occur in the two queries.
  */
  function Compiled(literal: string): string {
    if literal == "" then ""
    else if literal[0] == '\\' && |literal| > 1 then [literal[1]] + Compiled(literal[2..])
    else [literal[0]] + Compiled(literal[1..])
  }

  /** An SQL literal after its opening quote: its value and what follows. Two quotes stand for one. */
  function LiteralBody(sql: string): Option<(string, string)> {
    if sql == "" then None
    else if sql[0] != '\'' then Prepend(sql[0], LiteralBody(sql[1..]))
    else if |sql| > 1 && sql[1] == '\'' then Prepend('\'', LiteralBody(sql[2..]))
    else Some(("", sql[1..]))
  }

  function Prepend(c: char, r: Option<(string, string)>): Option<(string, string)> {
    if r.Some? then Some(([c] + r.value.0, r.value.1)) else None
  }

  /** The literal with which a text starts. */
  function LiteralAt(sql: string): Option<string> {
    if sql != "" && sql[0] == '\'' && LiteralBody(sql[1..]).Some? then Some(LiteralBody(sql[1..]).value.0) else None
  }

  /** Doubling the quotes carries every text through an SQL literal as it is. */
  lemma {:induction false} QuotedTextArrives(s: string, rest: string)
    requires rest == "" || rest[0] != '\''
    ensures LiteralBody(Replace(s, '\'', "''") + ("'" + rest)) == Some((s, rest))
  {
    var after := "'" + rest;
    if s == "" {
      assert "" + after == after && after[1..] == rest;
    } else {
      QuotedTextArrives(s[1..], rest);
      var tail := Replace(s[1..], '\'', "''") + after;
      var sql := Replace(s, '\'', "''") + after;
      assert s == [s[0]] + s[1..];
      if s[0] == '\'' {
        assert sql == "''" + tail && sql[2..] == tail;
      } else {
        assert sql == [s[0]] + tail && sql[1..] == tail;
      }
    }
  }

  // ----- the query by tag

  datatype Error = InvalidEscape | Syntax | Other

  datatype Article = Article(id: int, publishedAt: Option<int>, aiTags: Option<string>)

  /** `aiTags LIKE pattern ESCAPE escape`; an escape must be one character, even for a row without tags. */
  function Like(pattern: string, aiTags: Option<string>, escape: string, eq: CharEq): Result<bool, Error> {
    if |escape| != 1 then Failure(InvalidEscape)
    else Success(aiTags.Some? && Matches(pattern, aiTags.value, escape[0], eq))
  }

  /** The rows that match; the first row that cannot be evaluated ends the query. */
  function Selected(rows: seq<Article>, pattern: string, escape: string, eq: CharEq): Result<seq<Article>, Error> {
    if rows == [] then Success([])
    else
      var first := Like(pattern, rows[0].aiTags, escape, eq);
      if first.Failure? then Failure(first.error)
      else
        var others := Selected(rows[1..], pattern, escape, eq);
        if others.Failure? then others
        else Success((if first.value then [rows[0]] else []) + others.value)
  }

  /** `published_at DESC`: rows without a time come last. */
  predicate NewestFirst(rows: seq<Article>) {
    forall i, j :: 0 <= i < j < |rows| && rows[j].publishedAt.Some? ==>
      rows[i].publishedAt.Some? && rows[i].publishedAt.value >= rows[j].publishedAt.value
  }

  function Min(a: nat, b: nat): nat {
    if a <= b then a else b
  }

  ghost predicate IsPage(page: seq<Article>, selected: seq<Article>, limit: nat, offset: nat) {
    exists all :: multiset(all) == multiset(selected) && NewestFirst(all)
      && page == all[Min(offset, |all|)..Min(offset + limit, |all|)]
  }

  /** What the database may answer; a limit of zero examines no row. */
  ghost predicate MayAnswer(
    r: Result<seq<Article>, Error>, rows: seq<Article>, pattern: string, escape: string, eq: CharEq, limit: nat, offset: nat)
  {
    if limit == 0 then r == Success([])
    else
      var selected := Selected(rows, pattern, escape, eq);
      if selected.Failure? then r == Failure(selected.error)
      else r.Success? && IsPage(r.value, selected.value, limit, offset)
  }

  lemma {:induction false} SelectedFailsIff(rows: seq<Article>, pattern: string, escape: string, eq: CharEq)
    ensures Selected(rows, pattern, escape, eq).Failure? <==> |escape| != 1 && rows != []
    ensures Selected(rows, pattern, escape, eq).Failure? ==> Selected(rows, pattern, escape, eq).error == InvalidEscape
    decreases |rows|
  {
    if rows != [] {
      SelectedFailsIff(rows[1..], pattern, escape, eq);
    }
  }

  /** The query fails exactly when a row is examined with an escape that is not one character. */
  lemma AnswerFailsIff(
    r: Result<seq<Article>, Error>, rows: seq<Article>, pattern: string, escape: string, eq: CharEq, limit: nat, offset: nat)
    requires MayAnswer(r, rows, pattern, escape, eq, limit, offset)
    ensures r.Failure? <==> |escape| != 1 && rows != [] && limit > 0
    ensures r.Failure? ==> r.error == InvalidEscape
    ensures rows == [] ==> r == Success([])
  {
    SelectedFailsIff(rows, pattern, escape, eq);
    if rows == [] && limit > 0 {
      var all :| multiset(all) == multiset(Selected(rows, pattern, escape, eq).value) && NewestFirst(all)
        && r.value == all[Min(offset, |all|)..Min(offset + limit, |all|)];
      NoElements(all);
    }
  }

  lemma NoElements(l: seq<Article>)
    requires multiset(l) == multiset([])
    ensures l == []
  {
    assert |l| == |multiset(l)|;
  }

  const TAG_QUERY_END := "ORDER BY published_at DESC LIMIT ?2 OFFSET ?3"

  /** The escape of the query by tag, as the source spells it, up to the end of the query. */
  function TagQueryEscape(): string {
    @"'\'" + (" " + TAG_QUERY_END)
  }

  /** The escape of the related query, as the source spells it. */
  const RELATED_ESCAPE := @"'\\'"

  lemma CompiledStep(literal: string)
    ensures literal != "" && literal[0] != '\\' ==> Compiled(literal) == [literal[0]] + Compiled(literal[1..])
    ensures |literal| > 1 && literal[0] == '\\' ==> Compiled(literal) == [literal[1]] + Compiled(literal[2..])
  {}

  lemma EmptyLiteral(rest: string)
    requires rest != "" && rest[0] != '\''
    ensures LiteralAt("'" + ("'" + rest)) == Some("")
  {
    var body := "'" + rest;
    assert ("'" + body)[1..] == body && body[1..] == rest;
    assert LiteralBody(body) == Some(("", rest));
  }

  lemma OneCharLiteral(c: char)
    requires c != '\''
    ensures LiteralAt("'" + ([c] + "'")) == Some([c])
  {
    var body := [c] + "'";
    assert ("'" + body)[1..] == body && body[1..] == "'" && "'"[1..] == "";
    assert LiteralBody("'") == Some(("", ""));
    assert LiteralBody(body) == Prepend(c, LiteralBody("'"));
    assert [c] + "" == [c];
  }

  /**
   What the database receives: no character at all in the query by tag, where the backslash
   escapes the closing quote for the compiler, and one backslash in the related query.
  */
  lemma EscapesSent()
    ensures LiteralAt(Compiled(TagQueryEscape())) == Some("")
    ensures LiteralAt(Compiled(RELATED_ESCAPE)) == Some([ESCAPE])
  {
    TagEscapeSent(" " + TAG_QUERY_END);
    RelatedEscapeCompiled();
    OneCharLiteral(ESCAPE);
  }

  lemma TagEscapeSent(rest: string)
    requires rest != "" && rest[0] == ' '
    ensures LiteralAt(Compiled(@"'\'" + rest)) == Some("")
  {
    TagEscapeCompiled(rest);
    CompiledStep(rest);
    EmptyLiteral(Compiled(rest));
  }

  lemma TagEscapeCompiled(rest: string)
    ensures Compiled(@"'\'" + rest) == "'" + ("'" + Compiled(rest))
  {
    var q := @"'\'" + rest;
    CompiledStep(q);
    CompiledStep(q[1..]);
    assert q[1..][2..] == rest;
  }

  lemma RelatedEscapeCompiled()
    ensures Compiled(RELATED_ESCAPE) == "'" + ([ESCAPE] + "'")
  {
    var e := RELATED_ESCAPE;
    CompiledStep(e);
    CompiledStep(e[1..]);
    CompiledStep("'");
    assert e[1..][2..] == "'" && "'"[1..] == "";
  }

  /** What the query by tag may answer; an unreadable escape would be an error of its own. */
  ghost predicate MayAnswerByTag(
    r: Result<seq<Article>, Error>, rows: seq<Article>, tag: string, eq: CharEq, limit: nat, offset: nat)
  {
    var escape := LiteralAt(Compiled(TagQueryEscape()));
    if escape.None? then r == Failure(Syntax)
    else MayAnswer(r, rows, TagLikePattern(tag), escape.value, eq, limit, offset)
  }

  /**
   The query by tag succeeds exactly when it examines no row, and then it finds nothing: for every
   tag, table, limit and offset.
  */
  lemma ByTagSucceedsIff(
    r: Result<seq<Article>, Error>, rows: seq<Article>, tag: string, eq: CharEq, limit: nat, offset: nat)
    requires MayAnswerByTag(r, rows, tag, eq, limit, offset)
    ensures r.Success? <==> rows == [] || limit == 0
    ensures r.Success? ==> r.value == []
    ensures r.Failure? ==> r.error == InvalidEscape
  {
    EscapesSent();
    AnswerFailsIff(r, rows, TagLikePattern(tag), "", eq, limit, offset);
  }

  /** One article that lists the tag, and the search for it fails. */
  lemma ListedTagIsAnError(r: Result<seq<Article>, Error>)
    requires MayAnswerByTag(r, [Article(1, Some(0), Some(JsonTags(["rust"])))], "rust", Equal, 10, 0)
    ensures r == Failure(InvalidEscape)
    ensures Matches(TagLikePattern("rust"), JsonTags(["rust"]), ESCAPE, Equal)
  {
    ByTagSucceedsIff(r, [Article(1, Some(0), Some(JsonTags(["rust"])))], "rust", Equal, 10, 0);
    ExactTagSearchIff("rust", ["rust"]);
  }

  ghost predicate NeverFails(escape: string) {
    forall r, rows, pattern, eq, limit, offset :: MayAnswer(r, rows, pattern, escape, eq, limit, offset) ==> r.Success?
  }

  /** A query of this form works for all tables and patterns exactly when its escape is one character. */
  lemma NeverFailsIff(escape: string)
    ensures NeverFails(escape) <==> |escape| == 1
  {
    if |escape| == 1 {
      forall r, rows, pattern, eq, limit, offset | MayAnswer(r, rows, pattern, escape, eq, limit, offset)
        ensures r.Success?
      {
        AnswerFailsIff(r, rows, pattern, escape, eq, limit, offset);
      }
    } else {
      var rows, r := [Article(1, None, None)], Failure(InvalidEscape);
      SelectedFailsIff(rows, "", escape, Equal);
      assert MayAnswer(r, rows, "", escape, Equal, 1, 0);
    }
  }

  /** With the one-character escape that the pattern is made for, a page that is not cut holds what matches. */
  lemma IntendedSearchIff(
    r: Result<seq<Article>, Error>, rows: seq<Article>, tag: string, eq: CharEq, limit: nat, a: Article)
    requires MayAnswer(r, rows, TagLikePattern(tag), [ESCAPE], eq, limit, 0) && |rows| <= limit && a in rows
    ensures r.Success?
    ensures a in r.value <==> a.aiTags.Some? && Matches(TagLikePattern(tag), a.aiTags.value, ESCAPE, eq)
  {
    AnswerFailsIff(r, rows, TagLikePattern(tag), [ESCAPE], eq, limit, 0);
    SelectedAre(rows, TagLikePattern(tag), [ESCAPE], eq, a);
    var selected := Selected(rows, TagLikePattern(tag), [ESCAPE], eq).value;
    var all :| multiset(all) == multiset(selected) && NewestFirst(all)
      && r.value == all[Min(0, |all|)..Min(0 + limit, |all|)];
    assert |all| == |multiset(all)| == |selected|;
    assert r.value == all;
    assert a in all <==> a in multiset(all);
    assert a in selected <==> a in multiset(selected);
  }

  lemma {:induction false} SelectedAre(rows: seq<Article>, pattern: string, escape: string, eq: CharEq, a: Article)
    requires |escape| == 1
    ensures Selected(rows, pattern, escape, eq).Success? && |Selected(rows, pattern, escape, eq).value| <= |rows|
    ensures a in Selected(rows, pattern, escape, eq).value <==>
            a in rows && a.aiTags.Some? && Matches(pattern, a.aiTags.value, escape[0], eq)
    decreases |rows|
  {
    if rows != [] {
      SelectedAre(rows[1..], pattern, escape, eq, a);
      assert rows == [rows[0]] + rows[1..];
    }
  }

  // ----- the pattern of the related query

  /** An opening quote and no closing one. */
  function RelatedPattern(tag: string): string {
    "%\"" + EscapeLike(tag) + "%"
  }

  lemma RelatedPatternIs(tag: string)
    ensures RelatedPattern(tag) == "%" + (EscapeOnce("\"" + tag) + "%")
  {
    EscapeLikeIsOnePass(tag);
    EscapeOnceAfterQuote(tag);
  }

  lemma EscapeOnceAfterQuote(tag: string)
    ensures EscapeOnce("\"" + tag) == "\"" + EscapeOnce(tag)
  {
    assert ("\"" + tag)[1..] == tag;
  }

  /** It matches exactly the texts that hold a quote and then the tag. */
  lemma RelatedPatternMatchesIff(tag: string, text: string, eq: CharEq)
    ensures Matches(RelatedPattern(tag), text, ESCAPE, eq) <==> Occurs("\"" + tag, text, eq)
  {
    var w := "\"" + tag;
    RelatedPatternIs(tag);
    LikeAfterRun(EscapeOnce(w) + "%", text, eq);
    forall i | 0 <= i <= |text|
      ensures Matches(EscapeOnce(w) + "%", text[i..], ESCAPE, eq) <==> Prefix(w, text[i..], eq)
    {
      LikeEscaped(w, "%", text[i..], eq);
      if Prefix(w, text[i..], eq) {
        LikeRun(text[i..][|w|..], eq);
      }
    }
  }

  /** Piece `j` of `w` fits its place in `p`: the last one need only start what stands there. */
  predicate Fits(w: seq<string>, p: seq<string>, i: nat, j: nat, eq: CharEq)
    requires j < |w| && i + |w| <= |p|
  {
    if j == |w| - 1 then Prefix(w[j], p[i + j], eq) else SameText(w[j], p[i + j], eq)
  }

  predicate IsOpenRun(w: seq<string>, p: seq<string>, i: nat, eq: CharEq) {
    i + |w| <= |p| && forall j :: 0 <= j < |w| ==> Fits(w, p, i, j, eq)
  }

  lemma PrefixOfLetters(a: char, v: string, b: char, u: string, eq: CharEq)
    ensures Prefix([a] + v, [b] + u, eq) <==> eq(a, b) && Prefix(v, u, eq)
  {
    assert ([a] + v)[1..] == v && ([b] + u)[1..] == u;
    PrefixStep([a] + v, [b] + u, eq);
  }

  lemma OpenFirstPieceStep(a: char, v: seq<string>, b: char, u: seq<string>, eq: CharEq)
    requires v != [] && u != []
    ensures IsOpenRun([[a] + v[0]] + v[1..], [[b] + u[0]] + u[1..], 0, eq) <==> eq(a, b) && IsOpenRun(v, u, 0, eq)
  {
    var vs, us := [[a] + v[0]] + v[1..], [[b] + u[0]] + u[1..];
    PrefixOfLetters(a, v[0], b, u[0], eq);
    SameTextStep(a, v[0], b, u[0], eq);
    assert vs[0] == [a] + v[0] && us[0] == [b] + u[0];
    assert forall j :: 1 <= j < |v| ==> vs[j] == v[j];
    assert forall j :: 1 <= j < |u| ==> us[j] == u[j];
    if |v| <= |u| {
      assert Fits(vs, us, 0, 0, eq) <==> eq(a, b) && Fits(v, u, 0, 0, eq);
      assert forall j :: 1 <= j < |v| ==> (Fits(vs, us, 0, j, eq) <==> Fits(v, u, 0, j, eq));
    }
  }

  lemma OpenEmptyPieceStep(v: seq<string>, u: seq<string>, eq: CharEq)
    requires v != []
    ensures IsOpenRun([""] + v, [""] + u, 0, eq) <==> IsOpenRun(v, u, 0, eq)
  {
    var vs, us := [""] + v, [""] + u;
    if |v| <= |u| {
      forall j | 0 <= j < |v| ensures Fits(vs, us, 0, j + 1, eq) <==> Fits(v, u, 0, j, eq) {
        assert vs[j + 1] == v[j] && us[j + 1] == u[j];
      }
      assert Fits(vs, us, 0, 0, eq);
      if IsOpenRun(v, u, 0, eq) {
        forall j | 0 <= j < |vs| ensures Fits(vs, us, 0, j, eq) {
          assert j > 0 ==> Fits(v, u, 0, j - 1, eq);
        }
      }
    }
  }

  lemma OpenEmptyAgainstLetter(v: seq<string>, b: char, u: seq<string>, eq: CharEq)
    requires u != [] && v != []
    ensures !IsOpenRun([""] + v, [[b] + u[0]] + u[1..], 0, eq)
    ensures !IsOpenRun([[b] + u[0]] + u[1..], [""] + v, 0, eq)
  {
    var vs, us := [""] + v, [[b] + u[0]] + u[1..];
    assert vs[0] == "" && us[0] == [b] + u[0];
    assert |vs| <= |us| ==> !Fits(vs, us, 0, 0, eq);
    assert |us| <= |vs| ==> !Fits(us, vs, 0, 0, eq);
  }

  /** A text starts with `w` exactly when its pieces do. */
  lemma {:induction false} PrefixIsOpenRun(w: string, text: string, eq: CharEq)
    requires KeepsQuotes(eq)
    ensures Prefix(w, text, eq) <==> IsOpenRun(Pieces(w), Pieces(text), 0, eq)
    decreases |w|
  {
    if w == "" {
      assert Fits(Pieces(w), Pieces(text), 0, 0, eq);
    } else if text == "" {
      assert Pieces(text) == [""];
      if |Pieces(w)| == 1 {
        assert !Fits(Pieces(w), [""], 0, 0, eq);
      }
    } else {
      var v, u := Pieces(w[1..]), Pieces(text[1..]);
      PrefixStep(w, text, eq);
      PrefixIsOpenRun(w[1..], text[1..], eq);
      if w[0] == '"' && text[0] == '"' {
        OpenEmptyPieceStep(v, u, eq);
      } else if w[0] == '"' {
        OpenEmptyAgainstLetter(v, text[0], u, eq);
      } else if text[0] == '"' {
        OpenEmptyAgainstLetter(u, w[0], v, eq);
      } else {
        OpenFirstPieceStep(w[0], v, text[0], u, eq);
      }
    }
  }

  ghost predicate HasOpenRunFrom(w: seq<string>, p: seq<string>, from: nat, eq: CharEq) {
    exists i: nat :: from <= i && IsOpenRun(w, p, i, eq)
  }

  lemma OpenRunInRest(w: seq<string>, first: string, p: seq<string>, i: nat, eq: CharEq)
    ensures IsOpenRun(w, [first] + p, i + 1, eq) <==> IsOpenRun(w, p, i, eq)
  {
    var q, k := [first] + p, i + 1;
    if IsOpenRun(w, q, k, eq) {
      forall j | 0 <= j < |w| ensures Fits(w, p, i, j, eq) {
        assert Fits(w, q, k, j, eq) && q[k + j] == p[i + j];
      }
    }
    if IsOpenRun(w, p, i, eq) {
      forall j | 0 <= j < |w| ensures Fits(w, q, k, j, eq) {
        assert Fits(w, p, i, j, eq) && q[k + j] == p[i + j];
      }
    }
  }

  lemma OpenRunAfterFirst(w: seq<string>, first: string, p: seq<string>, eq: CharEq)
    ensures HasOpenRunFrom(w, [first] + p, 1, eq) <==> HasOpenRunFrom(w, p, 0, eq)
  {
    if i: nat :| 1 <= i && IsOpenRun(w, [first] + p, i, eq) {
      OpenRunInRest(w, first, p, i - 1, eq);
    }
    if i: nat :| IsOpenRun(w, p, i, eq) {
      OpenRunInRest(w, first, p, i, eq);
    }
  }

  lemma OpenRunFromHere(w: seq<string>, p: seq<string>, eq: CharEq)
    ensures HasOpenRunFrom(w, p, 0, eq) <==> IsOpenRun(w, p, 0, eq) || HasOpenRunFrom(w, p, 1, eq)
  {}

  /** The first piece does not matter to runs that start after it. */
  lemma OpenRunAfterLetter(w: seq<string>, first: string, p: seq<string>, eq: CharEq)
    requires p != []
    ensures HasOpenRunFrom(w, [first] + p[1..], 1, eq) <==> HasOpenRunFrom(w, p, 1, eq)
  {
    OpenRunAfterFirst(w, first, p[1..], eq);
    OpenRunAfterFirst(w, p[0], p[1..], eq);
    assert p == [p[0]] + p[1..];
  }

  lemma OpenOccursStep(w: string, text: string, eq: CharEq)
    requires KeepsQuotes(eq) && text != ""
    ensures Occurs("\"" + w, text, eq) <==> (text[0] == '"' && Prefix(w, text[1..], eq)) || Occurs("\"" + w, text[1..], eq)
  {
    var q := "\"" + w;
    assert q[1..] == w && text[0..] == text;
    PrefixStep(q, text, eq);
    if i :| 0 <= i <= |text| && Prefix(q, text[i..], eq) {
      if i > 0 {
        assert text[i..] == text[1..][i - 1..];
      }
    }
    if i :| 0 <= i <= |text[1..]| && Prefix(q, text[1..][i..], eq) {
      assert text[i + 1..] == text[1..][i..];
    }
    if text[0] == '"' && Prefix(w, text[1..], eq) {
      assert Prefix(q, text[0..], eq);
    }
  }

  /** A quote and then `w` occur exactly where the pieces of `w` run on from a quote. */
  lemma {:induction false} OccursIsOpenRun(w: string, text: string, eq: CharEq)
    requires KeepsQuotes(eq)
    ensures Occurs("\"" + w, text, eq) <==> HasOpenRunFrom(Pieces(w), Pieces(text), 1, eq)
    decreases |text|
  {
    if text == "" {
      assert forall i :: 0 <= i <= |text| ==> |text[i..]| == 0;
    } else {
      var p := Pieces(text[1..]);
      OpenOccursStep(w, text, eq);
      OccursIsOpenRun(w, text[1..], eq);
      if text[0] == '"' {
        PrefixIsOpenRun(w, text[1..], eq);
        OpenRunAfterFirst(Pieces(w), "", p, eq);
        OpenRunFromHere(Pieces(w), p, eq);
      } else {
        OpenRunAfterLetter(Pieces(w), [text[0]] + p[0], p, eq);
      }
    }
  }

  /** Which stored lists the related pattern of a tag matches, for every tag and every list. */
  lemma {:induction false} RelatedMatchesIff(tag: string, tags: seq<string>, eq: CharEq)
    requires KeepsQuotes(eq)
    ensures Matches(RelatedPattern(tag), JsonTags(tags), ESCAPE, eq)
       <==> tags != [] && HasOpenRunFrom(Pieces(tag), StoredPieces(tags) + ["]"], 0, eq)
  {
    RelatedPatternMatchesIff(tag, JsonTags(tags), eq);
    OccursIsOpenRun(tag, JsonTags(tags), eq);
    if tags == [] {
      OnePiece("[]");
    } else {
      PiecesOfStored(tags);
      OpenRunAfterFirst(Pieces(tag), "[", StoredPieces(tags) + ["]"], eq);
      assert ["["] + StoredPieces(tags) + ["]"] == ["["] + (StoredPieces(tags) + ["]"]);
    }
  }

  ghost predicate StartsAPiece(tag: string, p: seq<string>, eq: CharEq) {
    exists x :: x in p && Prefix(tag, x, eq)
  }

  lemma SingleOpenRunIff(tag: string, p: seq<string>, eq: CharEq)
    ensures HasOpenRunFrom([tag], p, 0, eq) <==> StartsAPiece(tag, p, eq)
  {
    if i: nat :| IsOpenRun([tag], p, i, eq) {
      assert Fits([tag], p, i, 0, eq) && p[i] in p;
    }
    if x :| x in p && Prefix(tag, x, eq) {
      var i :| 0 <= i < |p| && p[i] == x;
      assert Fits([tag], p, i, 0, eq);
      assert IsOpenRun([tag], p, i, eq);
    }
  }

  /**
   A tag without quotes matches the lists in which a stored tag, or a part of one behind a quote,
   starts with it, besides what the punctuation between the tags gives.
  */
  lemma QuoteFreeRelatedIff(tag: string, tags: seq<string>, eq: CharEq)
    requires KeepsQuotes(eq) && NoQuote(tag)
    ensures Matches(RelatedPattern(tag), JsonTags(tags), ESCAPE, eq)
       <==> (exists t :: t in tags && StartsAPiece(tag, Pieces(JsonText(t)), eq))
            || (|tags| > 1 && Prefix(tag, ",", eq)) || (tags != [] && Prefix(tag, "]", eq))
  {
    var p := StoredPieces(tags) + ["]"];
    RelatedMatchesIff(tag, tags, eq);
    OnePiece(tag);
    SingleOpenRunIff(tag, p, eq);
    if tags != [] && StartsAPiece(tag, p, eq) {
      var x :| x in p && Prefix(tag, x, eq);
      StoredPiecesAre(tags, x);
    }
    if t :| t in tags && StartsAPiece(tag, Pieces(JsonText(t)), eq) {
      var x :| x in Pieces(JsonText(t)) && Prefix(tag, x, eq);
      StoredPiecesAre(tags, x);
      assert x in p;
    }
    StoredPiecesAre(tags, ",");
    assert "]" in p;
  }

  /** So an article with one plain tag counts as related to every tag that its own tag starts with. */
  lemma RelatedTagStartsItIff(tag: string, t: string, eq: CharEq)
    requires KeepsQuotes(eq) && NoQuote(tag) && Plain(t)
    ensures Matches(RelatedPattern(tag), JsonTags([t]), ESCAPE, eq) <==> Prefix(tag, t, eq) || Prefix(tag, "]", eq)
  {
    QuoteFreeRelatedIff(tag, [t], eq);
    JsonKeepsPlainOnly(t);
    OnePiece(t);
    assert StartsAPiece(tag, [t], eq) <==> Prefix(tag, t, eq) by {
      assert t in [t];
    }
    assert t in [t] && forall u :: u in [t] ==> u == t;
  }

  // ----- the order of the related query

  /** Tokens of a sort specification; `Value` is a column or a CASE. */
  datatype Token = Open | Close | Plus | Comma | Desc | Value

  /** A value or a value expression in parentheses, section 6.3 of ISO/IEC 9075-2; the answer is what follows it. */
  function Primary(ts: seq<Token>): (r: Option<seq<Token>>)
    ensures r.Some? ==> |r.value| < |ts|
    decreases |ts|, 0
  {
    if ts == [] then None
    else if ts[0] == Value then Some(ts[1..])
    else if ts[0] == Open then
      var inner := Sum(ts[1..]);
      if inner.Some? && inner.value != [] && inner.value[0] == Close then Some(inner.value[1..]) else None
    else None
  }

  function Sum(ts: seq<Token>): (r: Option<seq<Token>>)
    ensures r.Some? ==> |r.value| < |ts|
    decreases |ts|, 1
  {
    var first := Primary(ts);
    if first.Some? && first.value != [] && first.value[0] == Plus then Sum(first.value[1..]) else first
  }

  /** Sort keys with their directions, separated by commas, section 10.10 of ISO/IEC 9075-2. */
  predicate IsSortList(ts: seq<Token>)
    decreases |ts|
  {
    var key := Sum(ts);
    key.Some? &&
    var rest := if key.value != [] && key.value[0] == Desc then key.value[1..] else key.value;
    rest == [] || (rest[0] == Comma && IsSortList(rest[1..]))
  }

  /** One CASE for each tag, added up. */
  function Cases(n: nat): seq<Token>
    requires n > 0
  {
    if n == 1 then [Value] else [Value, Plus] + Cases(n - 1)
  }

  /** `ORDER BY (… DESC), published_at DESC`: the direction stands inside the parentheses. */
  function RelatedOrder(n: nat): seq<Token>
    requires n > 0
  {
    [Open] + (Cases(n) + [Desc, Close, Comma, Value, Desc])
  }

  /** `ORDER BY (…) DESC, published_at DESC`. */
  function DirectionOutside(n: nat): seq<Token>
    requires n > 0
  {
    [Open] + (Cases(n) + [Close, Desc, Comma, Value, Desc])
  }

  lemma {:induction false} SumOfCases(n: nat, rest: seq<Token>)
    requires n > 0 && (rest == [] || rest[0] != Plus)
    ensures Sum(Cases(n) + rest) == Some(rest)
  {
    var ts := Cases(n) + rest;
    if n == 1 {
      assert ts == [Value] + rest && ts[1..] == rest;
    } else {
      var more := Cases(n - 1) + rest;
      assert ts == [Value] + ([Plus] + more) && ts[1..] == [Plus] + more && ([Plus] + more)[1..] == more;
      SumOfCases(n - 1, rest);
    }
  }

  /** However many tags there are, the order sent is no sort list, and with the direction outside it is one. */
  lemma RelatedOrderIsNoSortList(n: nat)
    requires n > 0
    ensures !IsSortList(RelatedOrder(n)) && IsSortList(DirectionOutside(n))
  {
    var inside, outside := [Desc, Close, Comma, Value, Desc], [Close, Desc, Comma, Value, Desc];
    SumOfCases(n, inside);
    SumOfCases(n, outside);
    assert RelatedOrder(n)[1..] == Cases(n) + inside && DirectionOutside(n)[1..] == Cases(n) + outside;
    assert Sum(RelatedOrder(n)) == None;
    assert outside[1..] == [Desc, Comma, Value, Desc];
    assert Sum(DirectionOutside(n)) == Some([Desc, Comma, Value, Desc]);
    assert [Desc, Comma, Value, Desc][1..] == [Comma, Value, Desc] && [Comma, Value, Desc][1..] == [Value, Desc];
    assert [Value, Desc][1..] == [Desc] && [Desc][1..] == [];
    assert Sum([Value, Desc]) == Some([Desc]);
    assert IsSortList([Value, Desc]);
  }

  /**
   Related articles: `read` is what the binding makes of the tags column of the given article,
   `decode` reads a JSON array, and `answer` is what the database answers to a query it accepts.
  */
  function RelatedArticles(
    read: Result<Option<string>, Error>, decode: string -> Option<seq<string>>, answer: Result<seq<Article>, Error>)
    : Result<seq<Article>, Error>
  {
    if read.Failure? then Failure(read.error)
    else if read.value.None? then Success([])
    else
      var tags := decode(read.value.value);
      if tags.None? || tags.value == [] then Success([])
      else if IsSortList(RelatedOrder(|tags.value|)) then answer
      else Failure(Syntax)
  }

  /** They are found never, and the call fails exactly when the tags cannot be read or there are some. */
  lemma RelatedFailsIff(
    read: Result<Option<string>, Error>, decode: string -> Option<seq<string>>, answer: Result<seq<Article>, Error>)
    ensures var r := RelatedArticles(read, decode, answer);
            && (r.Success? ==> r.value == [])
            && (r.Failure? <==>
                  || read.Failure?
                  || (read.value.Some? && decode(read.value.value).Some? && decode(read.value.value).value != []))
  {
    if read.Success? && read.value.Some? {
      var tags := decode(read.value.value);
      if tags.Some? && tags.value != [] {
        RelatedOrderIsNoSortList(|tags.value|);
      }
    }
  }
}
