/**
 The template preview of the configuration screen
 (src/components/ManualFieldConfigScreen.tsx, `exampleString`): every match of
 the regex `\{(.+?)}` in the template is replaced by the sample record's value
 for the captured token.
 */
module Template {
  import opened Wrappers
  import opened JsText
  import opened Localized

  /** A sample record: its own properties in key order. */
  type Record = seq<(string, Value)>

  /** A template read as literal characters and `{token}` matches. */
  datatype Piece = Lit(c: char) | Token(name: string)

  /**
   Reference: the regex `\{(.+?)}` can match the first `n` characters of `s`:
   a "{", one or more characters that are not line terminators, and a "}".
   */
  ghost predicate MatchOfLength(s: string, n: int) {
    && 3 <= n <= |s|
    && s[0] == '{'
    && s[n - 1] == '}'
    && forall j | 1 <= j < n - 1 :: !IsLineTerminator(s[j])
  }

  /** Position `t` ends the lazy scan for "}": the end of the text or a line terminator. */
  predicate StopsScan(s: string, t: nat)
    requires t <= |s|
  {
    t == |s| || IsLineTerminator(s[t])
  }

  /**
   The first "}" at position `k` or later, unless a line terminator comes first;
   `None` when the text from `k` reaches a line terminator or its end without a "}".
   */
  function FindClose(s: string, k: nat): (r: Option<nat>)
    requires k <= |s|
    ensures r.Some? ==> k <= r.value < |s| && s[r.value] == '}'
    ensures r.Some? ==> forall j | k <= j < r.value :: s[j] != '}' && !IsLineTerminator(s[j])
    ensures r.None? ==> exists t | k <= t <= |s| && StopsScan(s, t) :: forall j | k <= j < t :: s[j] != '}'
    decreases |s| - k
  {
    if k == |s| then
      assert StopsScan(s, k);
      None
    else if s[k] == '}' then Some(k)
    else if IsLineTerminator(s[k]) then
      assert StopsScan(s, k);
      None
    else FindClose(s, k + 1)
  }

  /**
   Where the match of the lazy `\{(.+?)}` starting at the head of `s` ends (the
   index of its "}"), or `None` when no match starts there.
   */
  function TokenEnd(s: string): (r: Option<nat>)
    ensures r.Some? ==> MatchOfLength(s, r.value + 1)
    ensures r.Some? ==> forall n | n < r.value + 1 :: !MatchOfLength(s, n)
    ensures r.None? ==> forall n :: !MatchOfLength(s, n)
  {
    if |s| >= 2 && s[0] == '{' && !IsLineTerminator(s[1]) then FindClose(s, 2) else None
  }

  /** The text a piece stands for: a literal character, or a token inside its braces. */
  function Text(p: Piece): string {
    match p
    case Lit(c) => [c]
    case Token(name) => "{" + name + "}"
  }

  /** Writes the pieces back as text, each token inside its braces. */
  function Unparse(pieces: seq<Piece>): string {
    if pieces == [] then [] else Text(pieces[0]) + Unparse(pieces[1..])
  }

  /**
   What the piece read at the head of `t` says about `t`: a literal where no
   match starts, a token where the shortest match is exactly its braces.
   */
  ghost predicate ReadAt(t: string, p: Piece) {
    match p
    case Lit(_) => TokenEnd(t).None?
    case Token(name) => TokenEnd(t) == Some(|name| + 1)
  }

  /** Where piece `k` starts in the written-back text. */
  ghost function Offset(pieces: seq<Piece>, k: nat): nat
    requires k <= |pieces|
  {
    |Unparse(pieces[..k])|
  }

  /**
   Reference for the global regex scan: each piece is read at the position
   where the text of the pieces before it ends.
   */
  ghost predicate Scanned(s: string, pieces: seq<Piece>) {
    forall k {:trigger Offset(pieces, k)} | 0 <= k < |pieces| ::
      Offset(pieces, k) <= |s| && ReadAt(s[Offset(pieces, k)..], pieces[k])
  }

  /**
   The template read left to right into literal characters and `{token}`
   matches: writing the pieces back gives the template, a match is taken
   wherever one starts (the shortest one), and a literal is taken exactly
   where none starts.
   */
  function Parse(s: string): (r: seq<Piece>)
    ensures Unparse(r) == s
    ensures Scanned(s, r)
    ensures TokensWellFormed(r)
    decreases |s|
  {
    if s == [] then []
    else
      match TokenEnd(s)
      case Some(q) =>
        var rest := Parse(s[q + 1..]);
        ParseTokenStep(s, q, rest);
        [Token(s[1..q])] + rest
      case None =>
        var rest := Parse(s[1..]);
        ParseLiteralStep(s, rest);
        [Lit(s[0])] + rest
  }

  /** Every token is a non-empty run without line terminators and without "}" after its first character. */
  predicate TokensWellFormed(pieces: seq<Piece>) {
    forall k | 0 <= k < |pieces| && pieces[k].Token? ::
      && |pieces[k].name| >= 1
      && (forall j | 0 <= j < |pieces[k].name| :: !IsLineTerminator(pieces[k].name[j]))
      && (forall j | 1 <= j < |pieces[k].name| :: pieces[k].name[j] != '}')
  }

  /** A match at the head of the template, followed by the parse of the rest. */
  lemma {:induction false} ParseTokenStep(s: string, q: nat, rest: seq<Piece>)
    requires s != [] && TokenEnd(s) == Some(q)
    requires Unparse(rest) == s[q + 1..] && Scanned(s[q + 1..], rest) && TokensWellFormed(rest)
    ensures var r := [Token(s[1..q])] + rest;
            Unparse(r) == s && Scanned(s, r) && TokensWellFormed(r)
  {
    var p := Token(s[1..q]);
    SplitAtMatch(s, q);
    assert |Text(p)| == q + 1;
    ScannedCons(s, p, rest);
    WellFormedCons(p, rest);
  }

  /** A literal character at the head of the template, followed by the parse of the rest. */
  lemma {:induction false} ParseLiteralStep(s: string, rest: seq<Piece>)
    requires s != [] && TokenEnd(s).None?
    requires Unparse(rest) == s[1..] && Scanned(s[1..], rest) && TokensWellFormed(rest)
    ensures var r := [Lit(s[0])] + rest;
            Unparse(r) == s && Scanned(s, r) && TokensWellFormed(r)
  {
    var p := Lit(s[0]);
    assert s == [s[0]] + s[1..];
    ScannedCons(s, p, rest);
    WellFormedCons(p, rest);
  }

  lemma {:induction false} WellFormedCons(p: Piece, rest: seq<Piece>)
    requires TokensWellFormed(rest)
    requires p.Token? ==>
      && |p.name| >= 1
      && (forall j | 0 <= j < |p.name| :: !IsLineTerminator(p.name[j]))
      && (forall j | 1 <= j < |p.name| :: p.name[j] != '}')
    ensures TokensWellFormed([p] + rest)
  {
    var all := [p] + rest;
    forall k | 1 <= k < |all| ensures all[k] == rest[k - 1] { }
  }

  lemma {:induction false} SplitAtMatch(s: string, q: nat)
    requires 0 < q < |s| && s[0] == '{' && s[q] == '}'
    ensures s == "{" + s[1..q] + "}" + s[q + 1..]
  {
    assert s == s[..1] + s[1..q] + s[q..q + 1] + s[q + 1..];
  }

  /** Writing back a list with a known head. */
  lemma {:induction false} UnparseCons(p: Piece, rest: seq<Piece>)
    ensures Unparse([p] + rest) == Text(p) + Unparse(rest)
  {
    assert ([p] + rest)[0] == p && ([p] + rest)[1..] == rest;
  }

  /** Behind a known head, every piece starts after the head's text. */
  lemma {:induction false} OffsetCons(p: Piece, rest: seq<Piece>, k: nat)
    requires k <= |rest|
    ensures Offset([p] + rest, k + 1) == |Text(p)| + Offset(rest, k)
  {
    assert ([p] + rest)[..k + 1] == [p] + rest[..k];
    UnparseCons(p, rest[..k]);
  }

  /** The scan of a list with a known head: the head read at the start, the rest after its text. */
  lemma {:induction false} ScannedCons(s: string, p: Piece, rest: seq<Piece>)
    requires Text(p) + Unparse(rest) == s
    ensures Unparse([p] + rest) == s
    ensures Scanned(s, [p] + rest) <==> ReadAt(s, p) && Scanned(s[|Text(p)|..], rest)
  {
    UnparseCons(p, rest);
    assert |Text(p)| <= |s|;
    if Scanned(s, [p] + rest) {
      ScannedTail(s, p, rest);
    }
    if ReadAt(s, p) && Scanned(s[|Text(p)|..], rest) {
      ScannedExtend(s, p, rest);
    }
  }

  lemma {:induction false} ScannedTail(s: string, p: Piece, rest: seq<Piece>)
    requires |Text(p)| <= |s|
    requires Scanned(s, [p] + rest)
    ensures ReadAt(s, p) && Scanned(s[|Text(p)|..], rest)
  {
    var all := [p] + rest;
    var m := |Text(p)|;
    var t := s[m..];
    assert Offset(all, 0) == 0 by { assert all[..0] == []; }
    assert s[0..] == s && all[0] == p;
    forall k | 0 <= k < |rest|
      ensures Offset(rest, k) <= |t| && ReadAt(t[Offset(rest, k)..], rest[k])
    {
      OffsetCons(p, rest, k);
      assert all[k + 1] == rest[k];
      assert t[Offset(rest, k)..] == s[Offset(all, k + 1)..];
    }
  }

  lemma {:induction false} ScannedExtend(s: string, p: Piece, rest: seq<Piece>)
    requires |Text(p)| <= |s|
    requires ReadAt(s, p) && Scanned(s[|Text(p)|..], rest)
    ensures Scanned(s, [p] + rest)
  {
    forall k | 0 <= k < |[p] + rest|
      ensures Offset([p] + rest, k) <= |s| && ReadAt(s[Offset([p] + rest, k)..], ([p] + rest)[k])
    {
      ScannedExtendAt(s, p, rest, k);
    }
  }

  lemma {:induction false} ScannedExtendAt(s: string, p: Piece, rest: seq<Piece>, k: nat)
    requires |Text(p)| <= |s|
    requires ReadAt(s, p) && Scanned(s[|Text(p)|..], rest)
    requires k < |[p] + rest|
    ensures Offset([p] + rest, k) <= |s| && ReadAt(s[Offset([p] + rest, k)..], ([p] + rest)[k])
  {
      if k == 0 {
        ReadHead(s, p, rest);
      } else {
        ReadBehindHead(s, p, rest, k - 1);
      }
  }

  /** The head piece is read at the start of the text. */
  lemma {:induction false} ReadHead(s: string, p: Piece, rest: seq<Piece>)
    requires ReadAt(s, p)
    ensures Offset([p] + rest, 0) <= |s| && ReadAt(s[Offset([p] + rest, 0)..], ([p] + rest)[0])
  {
    assert ([p] + rest)[..0] == [];
    assert s[0..] == s;
  }

  /** A piece of the tail is read in the whole text where it was read in the tail. */
  lemma {:induction false} ReadBehindHead(s: string, p: Piece, rest: seq<Piece>, k: nat)
    requires |Text(p)| <= |s|
    requires k < |rest|
    requires Offset(rest, k) <= |s[|Text(p)|..]| && ReadAt(s[|Text(p)|..][Offset(rest, k)..], rest[k])
    ensures Offset([p] + rest, k + 1) <= |s| && ReadAt(s[Offset([p] + rest, k + 1)..], ([p] + rest)[k + 1])
  {
    OffsetCons(p, rest, k);
    assert ([p] + rest)[k + 1] == rest[k];
    assert s[|Text(p)|..][Offset(rest, k)..] == s[Offset([p] + rest, k + 1)..];
  }

  /**
   The scan is unique: any pieces that write back to the template and are each
   read where the previous ones end are the parse.
   */
  lemma {:induction false} ParseUnique(s: string, r: seq<Piece>)
    requires Unparse(r) == s && Scanned(s, r)
    ensures r == Parse(s)
    decreases |r|
  {
    if r != [] {
      var p := r[0];
      var rest := r[1..];
      var m := |Text(p)|;
      assert Text(p) + Unparse(rest) == s && ReadAt(s, p) && Scanned(s[m..], rest) by {
        assert r == [p] + rest;
        UnparseCons(p, rest);
        ScannedCons(s, p, rest);
      }
      ParseUnique(s[m..], rest);
      ParseHead(s, p, rest);
      assert r == [p] + rest;
    }
  }

  /** A head piece read at the start of the text, followed by the parse of what follows its text, is the parse. */
  lemma {:induction false} ParseHead(s: string, p: Piece, rest: seq<Piece>)
    requires Text(p) + Unparse(rest) == s && ReadAt(s, p)
    requires rest == Parse(s[|Text(p)|..])
    ensures [p] + rest == Parse(s)
  {
    match p
    case Lit(c) =>
      assert s[0] == c;
    case Token(name) =>
      assert s[1..|name| + 1] == name;
  }

  /**
   The replacer's value for a token, converted as `String.prototype.replace`
   converts it: a string as it is, a number or boolean by its string form, an
   object as "[object Object]"; a missing record, a missing key and null give "".
   */
  function Lookup(record: Option<Record>, token: string): (r: string)
    ensures record.None? ==> r == ""
    ensures record.Some? && (forall j | 0 <= j < |record.value| :: record.value[j].0 != token) ==> r == ""
    ensures record.Some? ==>
      forall i | 0 <= i < |record.value| && record.value[i].0 == token
                 && (forall j | 0 <= j < i :: record.value[j].0 != token) ::
        match record.value[i].1
        case Str(s) => r == s
        case Primitive(text) => r == text
        case Obj(_) => r == "[object Object]"
        case Null => r == ""
  {
    match record
    case None => ""
    case Some(entries) =>
      match FindEntry(entries, token, 0)
      case None => ""
      case Some(i) =>
        match entries[i].1
        case Str(s) => s
        case Primitive(text) => text
        case Obj(_) => "[object Object]"
        case Null => ""
  }

  /** The index of the property named `key`, searching from `from` on. */
  function FindEntry(entries: Record, key: string, from: nat): (r: Option<nat>)
    requires from <= |entries|
    ensures r.Some? ==> from <= r.value < |entries| && entries[r.value].0 == key
    ensures r.Some? ==> forall j | from <= j < r.value :: entries[j].0 != key
    ensures r.None? ==> forall j | from <= j < |entries| :: entries[j].0 != key
    decreases |entries| - from
  {
    if from == |entries| then None
    else if entries[from].0 == key then Some(from)
    else FindEntry(entries, key, from + 1)
  }

  /** Reference: the text of the pieces with every token replaced by its value. */
  function Render(pieces: seq<Piece>, record: Option<Record>): string {
    if pieces == [] then []
    else
      match pieces[0]
      case Lit(c) => [c] + Render(pieces[1..], record)
      case Token(name) => Lookup(record, name) + Render(pieces[1..], record)
  }

  /**
   The global replacement: scanning left to right, each match is replaced by
   the record's value for its token and every other character is kept.
   */
  function ReplaceTokens(s: string, record: Option<Record>): string
    decreases |s|
  {
    if s == [] then []
    else
      match TokenEnd(s)
      case Some(q) => Lookup(record, s[1..q]) + ReplaceTokens(s[q + 1..], record)
      case None => [s[0]] + ReplaceTokens(s[1..], record)
  }

  /** `exampleString`: no example for a missing or empty template, else the substituted text. */
  function ExampleString(template: Option<string>, record: Option<Record>): (r: Option<string>)
    ensures r.None? <==> template.None? || template.value == ""
    ensures r.Some? ==> r.value == Render(Parse(template.value), record)
    ensures r.Some? && (forall i, n | 0 <= i < |template.value| :: !MatchOfLength(template.value[i..], n)) ==>
              r.value == template.value
  {
    if template.None? || |template.value| == 0 then None
    else
      var s := template.value;
      ReplaceIsRender(s, record);
      NoMatchUnchanged(s, record);
      Some(ReplaceTokens(s, record))
  }

  /** The substitution renders the parsed template: matches become values, all other text is kept in order. */
  lemma {:induction false} ReplaceIsRender(s: string, record: Option<Record>)
    ensures ReplaceTokens(s, record) == Render(Parse(s), record)
    decreases |s|
  {
    if s != [] {
      var p := Parse(s);
      match TokenEnd(s)
      case Some(q) =>
        ReplaceIsRender(s[q + 1..], record);
        assert p[0] == Token(s[1..q]) && p[1..] == Parse(s[q + 1..]);
      case None =>
        ReplaceIsRender(s[1..], record);
        assert p[0] == Lit(s[0]) && p[1..] == Parse(s[1..]);
    }
  }

  /** A template in which the regex matches nowhere is returned unchanged. */
  lemma {:induction false} NoMatchUnchanged(s: string, record: Option<Record>)
    ensures (forall i, n | 0 <= i < |s| :: !MatchOfLength(s[i..], n)) ==> ReplaceTokens(s, record) == s
    decreases |s|
  {
    if s != [] && forall i, n | 0 <= i < |s| :: !MatchOfLength(s[i..], n) {
      assert s[0..] == s;
      assert TokenEnd(s).None?;
      forall i, n | 0 <= i < |s| - 1
        ensures !MatchOfLength(s[1..][i..], n)
      {
        assert s[1..][i..] == s[i + 1..];
      }
      NoMatchUnchanged(s[1..], record);
      assert s == [s[0]] + s[1..];
    }
  }

  /** The tokens, in order, that the preview looks up. */
  function Tokens(pieces: seq<Piece>): seq<string> {
    if pieces == [] then []
    else (if pieces[0].Token? then [pieces[0].name] else []) + Tokens(pieces[1..])
  }

  /**
   A literal "{}" is not a token: the captured run must be non-empty, so with no
   later "}" the braces stay in the text as they are.
   */
  lemma {:induction false} EmptyBracesKept(rest: string, record: Option<Record>)
    requires '}' !in rest
    ensures ReplaceTokens("{}" + rest, record) == "{}" + rest
  {
    var s := "{}" + rest;
    assert s[2..] == rest;
    assert TokenEnd(s).None?;
    var t := s[1..];
    assert t == "}" + rest && t[1..] == rest;
    assert TokenEnd(t).None?;
    NoMatchUnchanged(rest, record);
    assert ReplaceTokens(t, record) == "}" + ReplaceTokens(rest, record);
    assert ReplaceTokens(s, record) == "{" + ReplaceTokens(t, record);
  }

  /** A template without "{" has no tokens. */
  lemma {:induction false} NoBraceNoTokens(s: string)
    requires '{' !in s
    ensures Tokens(Parse(s)) == []
    decreases |s|
  {
    if s != [] {
      assert TokenEnd(s).None?;
      NoBraceNoTokens(s[1..]);
      var p := Parse(s);
      assert p[0] == Lit(s[0]) && p[1..] == Parse(s[1..]);
    }
  }
}
