/**
 Tag normalization: trim, drop empties, canonicalize by the table, sort, drop repeats.
*/
module TagNormalizer {
  import opened Wrappers
  import Decimal
  import TagSearch

  /** Lowercase key, canonical value. */
  const TAG_CANONICAL_MAP: seq<(string, string)> := [
    ("rce", "Remote Code Execution"),
    ("llm", "Large Language Models"),
    ("xss", "Cross-Site Scripting"),
    ("idp", "Identity Providers"),
    ("cyber security", "Cybersecurity"),
    ("cybersecurity", "Cybersecurity"),
    ("malware", "Malware"),
    ("ransomware", "Ransomware"),
    ("phishing", "Phishing"),
    ("botnet", "Botnet"),
    ("zeroday", "Zero-Day Vulnerabilities"),
    ("zero-day", "Zero-Day Vulnerabilities"),
    ("zero day", "Zero-Day Vulnerabilities"),
    ("zero-day exploits", "Zero-Day Vulnerabilities"),
    ("github", "GitHub"),
    ("kubernetes", "Kubernetes"),
    ("docker", "Docker"),
    ("openai", "OpenAI"),
    ("microsoft 365", "Microsoft 365"),
    ("ai security", "AI Security"),
    ("ai safety", "AI Safety"),
    ("ai governance", "AI Governance"),
    ("network security", "Network Security"),
    ("cloud security", "Cloud Security"),
    ("cloud computing", "Cloud Computing"),
    ("machine learning", "Machine Learning"),
    ("supply chain", "Supply Chain"),
    ("identity security", "Identity Security")]

  function AsciiLower(s: string): (t: string)
    ensures |t| == |s|
  {
    seq(|s|, i requires 0 <= i < |s| => TagSearch.FoldAscii(s[i]))
  }

  /** What is used of Unicode: printable ASCII is no white space, and the values lowercase as ASCII does. */
  ghost predicate IsUnicode(space: char -> bool, lower: string -> string) {
    && (forall c: char :: '!' <= c <= '~' ==> !space(c))
    && (forall k :: 0 <= k < |TAG_CANONICAL_MAP| ==> lower(TAG_CANONICAL_MAP[k].1) == AsciiLower(TAG_CANONICAL_MAP[k].1))
  }

  // ----- one tag

  function TrimStart(s: string, space: char -> bool): string {
    if s != "" && space(s[0]) then TrimStart(s[1..], space) else s
  }

  function TrimEnd(s: string, space: char -> bool): string {
    if s != "" && space(s[|s| - 1]) then TrimEnd(s[..|s| - 1], space) else s
  }

  function Trim(s: string, space: char -> bool): string {
    TrimEnd(TrimStart(s, space), space)
  }

  function Lookup(key: string, from: nat): Option<string>
    requires from <= |TAG_CANONICAL_MAP|
    decreases |TAG_CANONICAL_MAP| - from
  {
    if from == |TAG_CANONICAL_MAP| then None
    else if TAG_CANONICAL_MAP[from].0 == key then Some(TAG_CANONICAL_MAP[from].1)
    else Lookup(key, from + 1)
  }

  function Canonical(tag: string, space: char -> bool, lower: string -> string): string {
    var found := Lookup(lower(Trim(tag, space)), 0);
    if found.Some? then found.value else Trim(tag, space)
  }

  predicate IsTrimmed(s: string, space: char -> bool) {
    s != "" ==> !space(s[0]) && !space(s[|s| - 1])
  }

  lemma {:induction false} TrimEndKeepsStart(s: string, space: char -> bool)
    ensures TrimEnd(s, space) <= s
    ensures TrimEnd(s, space) != "" ==> !space(TrimEnd(s, space)[|TrimEnd(s, space)| - 1])
  {
    if s != "" && space(s[|s| - 1]) {
      TrimEndKeepsStart(s[..|s| - 1], space);
    }
  }

  lemma {:induction false} TrimStartStarts(s: string, space: char -> bool)
    ensures TrimStart(s, space) != "" ==> !space(TrimStart(s, space)[0])
  {
    if s != "" && space(s[0]) {
      TrimStartStarts(s[1..], space);
    }
  }

  lemma TrimIsIdempotent(s: string, space: char -> bool)
    ensures IsTrimmed(Trim(s, space), space) && (IsTrimmed(s, space) ==> Trim(s, space) == s)
    ensures Trim(Trim(s, space), space) == Trim(s, space)
  {
    TrimStartStarts(s, space);
    TrimEndKeepsStart(TrimStart(s, space), space);
  }

  // ----- what a trim keeps

  predicate AllSpace(s: string, space: char -> bool) {
    forall i :: 0 <= i < |s| ==> space(s[i])
  }

  /** The text without the white space around it. */
  ghost predicate IsCore(core: string, s: string, space: char -> bool) {
    && IsTrimmed(core, space)
    && exists a, b :: s == a + (core + b) && AllSpace(a, space) && AllSpace(b, space)
  }

  lemma {:induction false} TrimStartDrops(s: string, space: char -> bool) returns (a: string)
    ensures s == a + TrimStart(s, space) && AllSpace(a, space)
  {
    a := "";
    if s != "" && space(s[0]) {
      var rest := TrimStartDrops(s[1..], space);
      a := [s[0]] + rest;
      assert s == [s[0]] + s[1..];
    } else {
      assert s == "" + s;
    }
  }

  lemma {:induction false} TrimEndDrops(s: string, space: char -> bool) returns (b: string)
    ensures s == TrimEnd(s, space) + b && AllSpace(b, space)
  {
    b := "";
    if s != "" && space(s[|s| - 1]) {
      var rest := TrimEndDrops(s[..|s| - 1], space);
      b := rest + [s[|s| - 1]];
      assert s == s[..|s| - 1] + [s[|s| - 1]];
    } else {
      assert s == s + "";
    }
  }

  lemma {:induction false} TrimStartOf(a: string, s: string, space: char -> bool)
    requires AllSpace(a, space) && (s != "" ==> !space(s[0]))
    ensures TrimStart(a + s, space) == s
  {
    if a == "" {
      assert a + s == s;
    } else {
      assert (a + s)[0] == a[0] && (a + s)[1..] == a[1..] + s;
      TrimStartOf(a[1..], s, space);
    }
  }

  lemma {:induction false} TrimEndOf(s: string, b: string, space: char -> bool)
    requires AllSpace(b, space) && (s != "" ==> !space(s[|s| - 1]))
    ensures TrimEnd(s + b, space) == s
  {
    if b == "" {
      assert s + b == s;
    } else {
      assert (s + b)[|s + b| - 1] == b[|b| - 1] && (s + b)[..|s + b| - 1] == s + b[..|b| - 1];
      TrimEndOf(s, b[..|b| - 1], space);
    }
  }

  lemma TrimOfPadded(a: string, core: string, b: string, space: char -> bool)
    requires AllSpace(a, space) && AllSpace(b, space) && IsTrimmed(core, space)
    ensures Trim(a + (core + b), space) == core
  {
    if core == "" {
      assert a + ("" + b) == (a + b) + "";
      TrimStartOf(a + b, "", space);
      assert (a + b) + "" == a + b;
    } else {
      TrimStartOf(a, core + b, space);
      TrimEndOf(core, b, space);
    }
  }

  /** A trim drops the white space around a text and nothing else; in particular it leaves nothing of white space only. */
  lemma TrimIsTheCore(s: string, core: string, space: char -> bool)
    ensures IsCore(core, s, space) <==> core == Trim(s, space)
    ensures Trim(s, space) == "" <==> AllSpace(s, space)
  {
    TrimIsIdempotent(s, space);
    var a := TrimStartDrops(s, space);
    var b := TrimEndDrops(TrimStart(s, space), space);
    assert s == a + (Trim(s, space) + b);
    if IsCore(core, s, space) {
      var c, d :| s == c + (core + d) && AllSpace(c, space) && AllSpace(d, space);
      TrimOfPadded(c, core, d, space);
    }
    if AllSpace(s, space) {
      TrimStartOf(s, "", space);
      assert s + "" == s;
    }
  }

  lemma {:induction false} LookupFinds(key: string, from: nat)
    requires from <= |TAG_CANONICAL_MAP|
    ensures Lookup(key, from).Some? ==>
              exists k :: 0 <= k < |TAG_CANONICAL_MAP| && TAG_CANONICAL_MAP[k] == (key, Lookup(key, from).value)
    decreases |TAG_CANONICAL_MAP| - from
  {
    if from < |TAG_CANONICAL_MAP| && TAG_CANONICAL_MAP[from].0 != key {
      LookupFinds(key, from + 1);
    } else if from < |TAG_CANONICAL_MAP| {
      assert TAG_CANONICAL_MAP[from] == (key, TAG_CANONICAL_MAP[from].1);
    }
  }

  /** The table is stable: a key that is some value in lowercase leads back to that value. */
  lemma TableIsStable(k: nat, j: nat)
    requires k < |TAG_CANONICAL_MAP| && j < |TAG_CANONICAL_MAP|
    requires TAG_CANONICAL_MAP[j].0 == AsciiLower(TAG_CANONICAL_MAP[k].1)
    ensures TAG_CANONICAL_MAP[j].1 == TAG_CANONICAL_MAP[k].1
  {
    TwoLettersDecide(k, j);
  }

  /** Length and first two letters tell the keys of different values apart. */
  predicate LettersDecide(k: nat, j: nat)
    requires k < |TAG_CANONICAL_MAP| && j < |TAG_CANONICAL_MAP|
  {
    var key, value := TAG_CANONICAL_MAP[j].0, TAG_CANONICAL_MAP[k].1;
    && |key| >= 2 && |value| >= 2
    && (|key| == |value| && key[0] == TagSearch.FoldAscii(value[0]) && key[1] == TagSearch.FoldAscii(value[1]) ==>
          TAG_CANONICAL_MAP[j].1 == value)
  }

  lemma FirstKeysDecide(k: nat, j: nat)
    requires k < |TAG_CANONICAL_MAP| && j < 14
    ensures LettersDecide(k, j)
  {}

  lemma LastKeysDecide(k: nat, j: nat)
    requires k < |TAG_CANONICAL_MAP| && 14 <= j < |TAG_CANONICAL_MAP|
    ensures LettersDecide(k, j)
  {}

  lemma TwoLettersDecide(k: nat, j: nat)
    requires k < |TAG_CANONICAL_MAP| && j < |TAG_CANONICAL_MAP|
    ensures LettersDecide(k, j)
  {
    if j < 14 {
      FirstKeysDecide(k, j);
    } else {
      LastKeysDecide(k, j);
    }
  }

  lemma ValuesAreTrimmed(k: nat, space: char -> bool)
    requires k < |TAG_CANONICAL_MAP| && forall c: char :: '!' <= c <= '~' ==> !space(c)
    ensures TAG_CANONICAL_MAP[k].1 != "" && IsTrimmed(TAG_CANONICAL_MAP[k].1, space)
  {}

  /** Canonical forms are their own canonical forms, and they are trimmed. */
  lemma CanonicalIsIdempotent(tag: string, space: char -> bool, lower: string -> string)
    requires IsUnicode(space, lower)
    ensures var c := Canonical(tag, space, lower);
            && Canonical(c, space, lower) == c && Trim(c, space) == c
            && (c == "" ==> Trim(tag, space) == "")
  {
    TrimIsIdempotent(tag, space);
    var key := lower(Trim(tag, space));
    LookupFinds(key, 0);
    if Lookup(key, 0).Some? {
      var k :| 0 <= k < |TAG_CANONICAL_MAP| && TAG_CANONICAL_MAP[k] == (key, Lookup(key, 0).value);
      var value := TAG_CANONICAL_MAP[k].1;
      ValuesAreTrimmed(k, space);
      TrimIsIdempotent(value, space);
      LookupFinds(lower(value), 0);
      if Lookup(lower(value), 0).Some? {
        var j :| 0 <= j < |TAG_CANONICAL_MAP| && TAG_CANONICAL_MAP[j] == (lower(value), Lookup(lower(value), 0).value);
        TableIsStable(k, j);
      }
    }
  }

  /** Two spellings that differ in case only are merged exactly when the table knows them. */
  lemma CaseVariantsMergeIff(a: string, b: string, space: char -> bool, lower: string -> string)
    requires lower(Trim(a, space)) == lower(Trim(b, space)) && Trim(a, space) != Trim(b, space)
    ensures Canonical(a, space, lower) == Canonical(b, space, lower)
       <==> exists k :: 0 <= k < |TAG_CANONICAL_MAP| && TAG_CANONICAL_MAP[k].0 == lower(Trim(a, space))
  {
    LookupFinds(lower(Trim(a, space)), 0);
    LookupMisses(lower(Trim(a, space)), 0);
  }

  lemma {:induction false} LookupMisses(key: string, from: nat)
    requires from <= |TAG_CANONICAL_MAP|
    ensures Lookup(key, from).None? ==> forall k :: from <= k < |TAG_CANONICAL_MAP| ==> TAG_CANONICAL_MAP[k].0 != key
    decreases |TAG_CANONICAL_MAP| - from
  {
    if from < |TAG_CANONICAL_MAP| {
      LookupMisses(key, from + 1);
    }
  }

  // ----- the order of tags

  ghost predicate StrictlySorted(l: seq<string>) {
    forall i, j :: 0 <= i < j < |l| ==> Decimal.Less(l[i], l[j])
  }

  ghost predicate Sorted(l: seq<string>) {
    forall i, j :: 0 <= i < j < |l| ==> Decimal.Less(l[i], l[j]) || l[i] == l[j]
  }

  function Place(x: string, l: seq<string>): seq<string> {
    if l != [] && Decimal.Less(l[0], x) then [l[0]] + Place(x, l[1..]) else [x] + l
  }

  function Sort(l: seq<string>): seq<string> {
    if l == [] then [] else Place(l[0], Sort(l[1..]))
  }

  /** Adjacent repeats removed. */
  function Dedup(l: seq<string>): seq<string> {
    if |l| < 2 then l
    else if l[0] == l[1] then Dedup(l[1..])
    else [l[0]] + Dedup(l[1..])
  }

  lemma {:induction false} PlaceSorts(x: string, l: seq<string>)
    requires Sorted(l)
    ensures Sorted(Place(x, l)) && forall y :: y in Place(x, l) <==> y == x || y in l
  {
    if l != [] && Decimal.Less(l[0], x) {
      PlaceSorts(x, l[1..]);
      assert l == [l[0]] + l[1..];
      var p := Place(x, l[1..]);
      forall j | 0 <= j < |p| ensures Decimal.Less(l[0], p[j]) || l[0] == p[j] {
        assert p[j] in p;
      }
    } else if l != [] {
      Decimal.LessIsTotal(l[0], x);
      forall j | 0 <= j < |l| ensures Decimal.Less(x, l[j]) || x == l[j] {
        if x != l[0] && l[0] != l[j] {
          Decimal.LessIsTransitive(x, l[0], l[j]);
        }
      }
    }
  }

  lemma {:induction false} SortSorts(l: seq<string>)
    ensures Sorted(Sort(l)) && forall y :: y in Sort(l) <==> y in l
  {
    if l != [] {
      SortSorts(l[1..]);
      PlaceSorts(l[0], Sort(l[1..]));
      assert l == [l[0]] + l[1..];
    }
  }

  lemma {:induction false} DedupSeparates(l: seq<string>)
    requires Sorted(l)
    ensures StrictlySorted(Dedup(l)) && (forall y :: y in Dedup(l) <==> y in l)
    ensures l != [] ==> Dedup(l) != [] && Dedup(l)[0] == l[0]
  {
    if |l| >= 2 {
      DedupSeparates(l[1..]);
      assert l == [l[0]] + l[1..];
      var d := Dedup(l[1..]);
      if l[0] != l[1] {
        forall j | 0 <= j < |d| ensures Decimal.Less(l[0], d[j]) {
          if j > 0 {
            Decimal.LessIsTransitive(l[0], d[0], d[j]);
          }
        }
      } else {
        assert l[0] in l[1..];
      }
    }
  }

  /** A strictly sorted list is determined by its members. */
  lemma {:induction false} StrictlySortedIsUnique(a: seq<string>, b: seq<string>)
    requires StrictlySorted(a) && StrictlySorted(b) && forall y :: y in a <==> y in b
    ensures a == b
    decreases |a|
  {
    if a == [] {
      NoMembers(b);
    } else {
      assert a[0] in a;
      var k :| 0 <= k < |b| && b[k] == a[0];
      assert b[0] in b;
      var m :| 0 <= m < |a| && a[m] == b[0];
      FirstsAgree(a, b, k, m);
      forall y ensures y in a[1..] <==> y in b[1..] {
        InTail(a, y);
        InTail(b, y);
      }
      StrictlySortedIsUnique(a[1..], b[1..]);
    }
  }

  lemma NoMembers(l: seq<string>)
    ensures (forall y :: y !in l) ==> l == []
  {
    if l != [] {
      assert l[0] in l;
    }
  }

  lemma FirstsAgree(a: seq<string>, b: seq<string>, k: nat, m: nat)
    requires StrictlySorted(a) && StrictlySorted(b) && k < |b| && m < |a| && b[k] == a[0] && a[m] == b[0]
    ensures a[0] == b[0]
  {
    if k > 0 && m > 0 {
      Decimal.LessIsTransitive(b[0], a[0], b[0]);
      Decimal.LessIsTotal(b[0], b[0]);
    }
  }

  lemma InTail(l: seq<string>, y: string)
    requires StrictlySorted(l) && l != []
    ensures y in l[1..] <==> y in l && y != l[0]
  {
    Decimal.LessIsTotal(l[0], l[0]);
    assert l == [l[0]] + l[1..];
    if y in l[1..] {
      var j :| 0 <= j < |l| - 1 && l[1..][j] == y;
      assert Decimal.Less(l[0], l[j + 1]);
    }
  }

  // ----- the list

  function CanonicalTags(tags: seq<string>, space: char -> bool, lower: string -> string): seq<string> {
    if tags == [] then []
    else
      var last := Trim(tags[|tags| - 1], space);
      CanonicalTags(tags[..|tags| - 1], space, lower) + (if last != "" then [Canonical(last, space, lower)] else [])
  }

  function Normalized(tags: seq<string>, space: char -> bool, lower: string -> string): seq<string> {
    Dedup(Sort(CanonicalTags(tags, space, lower)))
  }

  /** Trim, filter and canonicalize tag by tag, then sort and drop repeats in place. */
  method NormalizeTags(tags: seq<string>, space: char -> bool, lower: string -> string) returns (result: seq<string>)
    ensures result == Normalized(tags, space, lower)
    ensures StrictlySorted(result) && forall y :: y in result <==> HasForm(tags, space, lower, y)
  {
    result := [];
    for i := 0 to |tags|
      invariant result == CanonicalTags(tags[..i], space, lower)
    {
      assert tags[..i + 1][..i] == tags[..i];
      var t := Trim(tags[i], space);
      if t != "" {
        var c := CanonicalizeTag(t, space, lower);
        result := result + [c];
      }
    }
    assert tags[..|tags|] == tags;
    result := Sort(result);
    result := DedupInPlace(result);
    forall y ensures y in result <==> HasForm(tags, space, lower, y) {
      NormalizedIsTheSet(tags, space, lower, y);
    }
    NormalizedIsTheSet(tags, space, lower, "");
  }

  method CanonicalizeTag(tag: string, space: char -> bool, lower: string -> string) returns (c: string)
    ensures c == Canonical(tag, space, lower)
  {
    var key := lower(Trim(tag, space));
    for k := 0 to |TAG_CANONICAL_MAP|
      invariant Lookup(key, 0) == Lookup(key, k)
    {
      if key == TAG_CANONICAL_MAP[k].0 {
        return TAG_CANONICAL_MAP[k].1;
      }
    }
    return Trim(tag, space);
  }

  method DedupInPlace(l: seq<string>) returns (kept: seq<string>)
    ensures kept == Dedup(l)
  {
    kept := [];
    for i := 0 to |l|
      invariant (i == 0 ==> kept == []) && (i > 0 ==> kept != [] && kept[|kept| - 1] == l[i - 1])
      invariant i > 0 ==> Dedup(l) == kept[..|kept| - 1] + Dedup(l[i - 1..])
    {
      if i == 0 {
        kept := [l[0]];
        assert l[0..] == l;
      } else {
        assert l[i - 1..][1..] == l[i..];
        if l[i] != l[i - 1] {
          kept := kept + [l[i]];
        }
      }
    }
    if l != [] {
      assert l[|l| - 1..] == [l[|l| - 1]];
    }
  }

  /** The value of the first entry with the key, or the text itself when there is none. */
  ghost predicate IsCanonical(core: string, y: string, lower: string -> string) {
    || (exists k ::
          && 0 <= k < |TAG_CANONICAL_MAP| && TAG_CANONICAL_MAP[k] == (lower(core), y)
          && forall j :: 0 <= j < k ==> TAG_CANONICAL_MAP[j].0 != lower(core))
    || (y == core && forall k :: 0 <= k < |TAG_CANONICAL_MAP| ==> TAG_CANONICAL_MAP[k].0 != lower(core))
  }

  /** There is more than white space in the tag, and `y` is the canonical form of what there is. */
  ghost predicate IsFormOf(t: string, y: string, space: char -> bool, lower: string -> string) {
    !AllSpace(t, space) && exists core :: IsCore(core, t, space) && IsCanonical(core, y, lower)
  }

  lemma {:induction false} LookupIsFirst(key: string, from: nat)
    requires from <= |TAG_CANONICAL_MAP|
    requires forall j :: 0 <= j < from ==> TAG_CANONICAL_MAP[j].0 != key
    ensures Lookup(key, from).Some? ==>
              exists k ::
                && 0 <= k < |TAG_CANONICAL_MAP| && TAG_CANONICAL_MAP[k] == (key, Lookup(key, from).value)
                && forall j :: 0 <= j < k ==> TAG_CANONICAL_MAP[j].0 != key
    ensures Lookup(key, from).None? ==> forall j :: 0 <= j < |TAG_CANONICAL_MAP| ==> TAG_CANONICAL_MAP[j].0 != key
    decreases |TAG_CANONICAL_MAP| - from
  {
    if from < |TAG_CANONICAL_MAP| {
      if TAG_CANONICAL_MAP[from].0 == key {
        assert TAG_CANONICAL_MAP[from] == (key, Lookup(key, from).value);
      } else {
        LookupIsFirst(key, from + 1);
      }
    }
  }

  lemma CanonicalIff(t: string, y: string, space: char -> bool, lower: string -> string)
    ensures y == Canonical(t, space, lower) <==> IsCanonical(Trim(t, space), y, lower)
  {
    LookupIsFirst(lower(Trim(t, space)), 0);
  }

  lemma FormIff(t: string, y: string, space: char -> bool, lower: string -> string)
    ensures IsFormOf(t, y, space, lower) <==> Trim(t, space) != "" && y == Canonical(t, space, lower)
  {
    forall core: string ensures IsCore(core, t, space) <==> core == Trim(t, space) {
      TrimIsTheCore(t, core, space);
    }
    TrimIsTheCore(t, "", space);
    CanonicalIff(t, y, space, lower);
  }

  /** Some tag of the list has the canonical form `y`. */
  ghost predicate HasForm(tags: seq<string>, space: char -> bool, lower: string -> string, y: string) {
    exists t :: t in tags && IsFormOf(t, y, space, lower)
  }

  lemma HasFormStep(tags: seq<string>, space: char -> bool, lower: string -> string, y: string)
    requires tags != []
    ensures var last := tags[|tags| - 1];
            HasForm(tags, space, lower, y)
            <==> HasForm(tags[..|tags| - 1], space, lower, y)
                 || (Trim(last, space) != "" && y == Canonical(last, space, lower))
  {
    FormIff(tags[|tags| - 1], y, space, lower);
    assert tags == tags[..|tags| - 1] + [tags[|tags| - 1]];
  }

  lemma {:induction false} CanonicalTagsMembers(tags: seq<string>, space: char -> bool, lower: string -> string, y: string)
    ensures y in CanonicalTags(tags, space, lower) <==> HasForm(tags, space, lower, y)
  {
    if tags != [] {
      var k := |tags| - 1;
      CanonicalTagsMembers(tags[..k], space, lower, y);
      TrimIsIdempotent(tags[k], space);
      HasFormStep(tags, space, lower, y);
    }
  }

  /** The result lists the canonical forms of the non-empty tags, each once, in order. */
  lemma NormalizedIsTheSet(tags: seq<string>, space: char -> bool, lower: string -> string, y: string)
    ensures StrictlySorted(Normalized(tags, space, lower))
    ensures y in Normalized(tags, space, lower) <==> HasForm(tags, space, lower, y)
  {
    var l := CanonicalTags(tags, space, lower);
    SortSorts(l);
    DedupSeparates(Sort(l));
    CanonicalTagsMembers(tags, space, lower, y);
  }

  /** Order, repeats, and the spelling of a tag do not matter beyond its canonical form. */
  lemma SameFormsSameResult(tags: seq<string>, others: seq<string>, space: char -> bool, lower: string -> string)
    requires forall y :: HasForm(tags, space, lower, y) <==> HasForm(others, space, lower, y)
    ensures Normalized(tags, space, lower) == Normalized(others, space, lower)
  {
    forall y ensures y in Normalized(tags, space, lower) <==> y in Normalized(others, space, lower) {
      NormalizedIsTheSet(tags, space, lower, y);
      NormalizedIsTheSet(others, space, lower, y);
    }
    NormalizedIsTheSet(tags, space, lower, "");
    NormalizedIsTheSet(others, space, lower, "");
    StrictlySortedIsUnique(Normalized(tags, space, lower), Normalized(others, space, lower));
  }

  /** Normalizing what is normalized changes nothing. */
  lemma NormalizeIsIdempotent(tags: seq<string>, space: char -> bool, lower: string -> string)
    requires IsUnicode(space, lower)
    ensures Normalized(Normalized(tags, space, lower), space, lower) == Normalized(tags, space, lower)
  {
    var n := Normalized(tags, space, lower);
    forall y ensures y in Normalized(n, space, lower) <==> y in n {
      NormalizedIsTheSet(n, space, lower, y);
      forall t | t in n ensures IsFormOf(t, y, space, lower) <==> Trim(t, space) != "" && y == Canonical(t, space, lower) {
        FormIff(t, y, space, lower);
      }
      forall t | t in n ensures Canonical(t, space, lower) == t && Trim(t, space) != "" {
        NormalizedIsTheSet(tags, space, lower, t);
        var u :| u in tags && IsFormOf(u, t, space, lower);
        FormIff(u, t, space, lower);
        CanonicalIsIdempotent(u, space, lower);
      }
    }
    NormalizedIsTheSet(n, space, lower, "");
    NormalizedIsTheSet(tags, space, lower, "");
    StrictlySortedIsUnique(Normalized(n, space, lower), n);
  }
}
