/**
  The sidebar search of the application shell (Application.tsx): the blank
  guard in front of the debounced search, and the reducer that turns the raw
  input into a search query with the `--body` and `--title` flags.
 */
module Search {
  import opened Common

  // ---------------------------------------------------------------------
  // `String.prototype.split(' ')` and its inverse

  /**
    The pieces of `s` between single space characters, as `s.split(' ')`
    returns them: empty pieces are kept, so there is always at least one.
   */
  function Split(s: string): (r: seq<string>)
    ensures |r| >= 1
    ensures forall i :: 0 <= i < |r| ==> ' ' !in r[i]
  {
    if |s| == 0 then [""]
    else
      var rest := Split(s[1..]);
      if s[0] == ' ' then [""] + rest
      else [[s[0]] + rest[0]] + rest[1..]
  }

  /** The pieces joined with one space between neighbours (`pieces.join(' ')`). */
  function Join(pieces: seq<string>): string
  {
    if |pieces| == 0 then ""
    else if |pieces| == 1 then pieces[0]
    else pieces[0] + " " + Join(pieces[1..])
  }

  /** Splitting loses nothing: joining the pieces gives the input back. */
  lemma {:induction false} JoinSplit(s: string)
    ensures Join(Split(s)) == s
  {
    if |s| > 0 {
      var rest := Split(s[1..]);
      JoinSplit(s[1..]);
      if s[0] == ' ' {
        assert Split(s) == [""] + rest;
        assert s == [' '] + s[1..];
      } else {
        var r := Split(s);
        assert r[1..] == rest[1..];
        if |rest| == 1 {
          assert s == [s[0]] + rest[0];
        } else {
          assert Join(rest) == rest[0] + " " + Join(rest[1..]);
          assert s == [s[0]] + s[1..];
        }
      }
    }
  }

  /** Joining space-free pieces and splitting again gives the same pieces. */
  lemma {:induction false} SplitJoin(pieces: seq<string>)
    requires |pieces| >= 1
    requires forall i :: 0 <= i < |pieces| ==> ' ' !in pieces[i]
    ensures Split(Join(pieces)) == pieces
  {
    if |pieces| == 1 {
      SplitWord(pieces[0]);
    } else {
      SplitJoin(pieces[1..]);
      assert Join(pieces) == pieces[0] + " " + Join(pieces[1..]);
      SplitWordThen(pieces[0], Join(pieces[1..]));
    }
  }

  /** A space-free word splits into itself. */
  lemma {:induction false} SplitWord(w: string)
    requires ' ' !in w
    ensures Split(w) == [w]
  {
    if |w| > 0 {
      assert ' ' !in w[1..] by {
        forall i | 0 <= i < |w[1..]| ensures w[1..][i] != ' ' {
          assert w[1..][i] == w[i + 1];
        }
      }
      SplitWord(w[1..]);
      assert w == [w[0]] + w[1..];
    }
  }

  /** A space-free word and a space in front of `rest` split off as one piece in front of the pieces of `rest`. */
  lemma {:induction false} SplitWordThen(w: string, rest: string)
    requires ' ' !in w
    ensures Split(w + " " + rest) == [w] + Split(rest)
  {
    var s := w + " " + rest;
    if |w| == 0 {
      assert s == [' '] + rest;
      assert s[1..] == rest;
    } else {
      assert ' ' !in w[1..] by {
        forall i | 0 <= i < |w[1..]| ensures w[1..][i] != ' ' {
          assert w[1..][i] == w[i + 1];
        }
      }
      SplitWordThen(w[1..], rest);
      assert s[0] == w[0];
      assert s[1..] == w[1..] + " " + rest;
      assert w == [w[0]] + w[1..];
    }
  }

  // ---------------------------------------------------------------------
  // The search-parameter reducer

  /** The parsed query: the free text, and which flags were present (false = absent). */
  datatype SearchParams = SearchParams(query: string, body: bool, title: bool)

  const BodyFlag: string := "--body"
  const TitleFlag: string := "--title"

  /** The reducer's starting value `{ query: '' }`. */
  const NoParams: SearchParams := SearchParams("", false, false)

  /** A token that is not one of the two flags and so belongs to the query text. */
  predicate IsTerm(tok: string)
  {
    tok != BodyFlag && tok != TitleFlag
  }

  function IsTermTest(): string -> bool
  {
    (tok: string) => IsTerm(tok)
  }

  /** The query with one more word: the word alone while the query is empty, else after a space. */
  function AppendTerm(query: string, word: string): (r: string)
    ensures query == "" ==> r == word
    ensures query != "" ==> |r| == |query| + 1 + |word| && r[..|query|] == query && r[|query|] == ' '
    ensures query != "" ==> r[|query| + 1..] == word
  {
    if query == "" then word else query + " " + word
  }

  /** One step of the reducer. */
  function ParseStep(p: SearchParams, tok: string): SearchParams
  {
    if tok == BodyFlag then p.(body := true)
    else if tok == TitleFlag then p.(title := true)
    else p.(query := AppendTerm(p.query, tok))
  }

  /** The reducer run over a token list from a given start value. */
  function ParseTokens(p: SearchParams, toks: seq<string>): SearchParams
    decreases |toks|
  {
    if |toks| == 0 then p else ParseTokens(ParseStep(p, toks[0]), toks[1..])
  }

  /**
    `sidebarSearchQuery.split(' ').reduce(...)` from `{query: ''}`: each flag
    is set iff it occurs among the space-separated tokens, and the query is
    the other tokens, after the leading empty ones, joined by single spaces.
   */
  function ParseSearchQuery(input: string): (r: SearchParams)
    ensures ParsedFrom(r, Split(input))
  {
    ParseCharacterized(Split(input));
    ParseTokens(NoParams, Split(input))
  }

  /** `p` is what the reducer makes of `toks`: flags by presence, the other words joined. */
  predicate ParsedFrom(p: SearchParams, toks: seq<string>)
  {
    (p.body <==> BodyFlag in toks)
    && (p.title <==> TitleFlag in toks)
    && p.query == Join(DropLeadingEmpty(Filter(IsTermTest(), toks)))
  }

  /** The tokens after the leading empty ones. */
  function DropLeadingEmpty(toks: seq<string>): (r: seq<string>)
    ensures r == [] || r[0] != ""
    ensures |r| <= |toks| && r == toks[|toks| - |r|..]
    ensures forall i :: 0 <= i < |toks| - |r| ==> toks[i] == ""
  {
    if |toks| == 0 || toks[0] != "" then toks else DropLeadingEmpty(toks[1..])
  }

  /** The query text of the reducer, fed the words `words` one by one from `query`. */
  function AppendAll(query: string, words: seq<string>): string
    decreases |words|
  {
    if |words| == 0 then query else AppendAll(AppendTerm(query, words[0]), words[1..])
  }

  /** From a non-empty query the remaining words are simply joined on. */
  lemma {:induction false} AppendAllNonEmpty(query: string, words: seq<string>)
    requires query != ""
    ensures AppendAll(query, words) == if words == [] then query else query + " " + Join(words)
    decreases |words|
  {
    if words != [] {
      var next := query + " " + words[0];
      assert next != "" by {
        assert |next| > 0;
      }
      AppendAllNonEmpty(next, words[1..]);
      if |words| > 1 {
        assert Join(words) == words[0] + " " + Join(words[1..]);
        assert next + " " + Join(words[1..]) == query + " " + (words[0] + " " + Join(words[1..]));
      }
    }
  }

  /** From the empty query, leading empty words vanish and the rest are joined. */
  lemma {:induction false} AppendAllFromEmpty(words: seq<string>)
    ensures AppendAll("", words) == Join(DropLeadingEmpty(words))
  {
    if words != [] {
      var w := words[0];
      assert AppendAll("", words) == AppendAll(w, words[1..]) by {
        assert AppendTerm("", w) == w;
      }
      if w == "" {
        assert DropLeadingEmpty(words) == DropLeadingEmpty(words[1..]);
        AppendAllFromEmpty(words[1..]);
      } else {
        assert DropLeadingEmpty(words) == words;
        AppendAllNonEmpty(w, words[1..]);
        if |words| == 1 {
          assert Join(words) == w;
        } else {
          assert Join(words) == w + " " + Join(words[1..]);
        }
      }
    }
  }

  /** The reducer separates flags from query words, whatever it started from. */
  lemma ParseTokensSplitsFlags(p: SearchParams, toks: seq<string>)
    ensures ParseTokens(p, toks) == SearchParams(
      AppendAll(p.query, Filter(IsTermTest(), toks)),
      p.body || BodyFlag in toks,
      p.title || TitleFlag in toks)
  {
    ParseQueryWords(p, toks);
    ParseFlags(p, toks);
  }

  /** The reducer's query is its start query with every non-flag token appended in order. */
  lemma {:induction false} ParseQueryWords(p: SearchParams, toks: seq<string>)
    ensures ParseTokens(p, toks).query == AppendAll(p.query, Filter(IsTermTest(), toks))
    decreases |toks|
  {
    if |toks| > 0 {
      var t := toks[0];
      var next := ParseStep(p, t);
      ParseQueryWords(next, toks[1..]);
      assert toks == [t] + toks[1..];
      var words := Filter(IsTermTest(), toks[1..]);
      if IsTerm(t) {
        assert Filter(IsTermTest(), toks) == [t] + words;
        assert AppendAll(p.query, [t] + words) == AppendAll(next.query, words);
      } else {
        assert Filter(IsTermTest(), toks) == words;
      }
    }
  }

  /** The reducer sets a flag iff it was set at the start or the flag is one of the tokens. */
  lemma {:induction false} ParseFlags(p: SearchParams, toks: seq<string>)
    ensures ParseTokens(p, toks).body == (p.body || BodyFlag in toks)
    ensures ParseTokens(p, toks).title == (p.title || TitleFlag in toks)
    decreases |toks|
  {
    if |toks| > 0 {
      var t := toks[0];
      ParseFlags(ParseStep(p, t), toks[1..]);
      assert toks == [t] + toks[1..];
      assert BodyFlag in toks <==> t == BodyFlag || BodyFlag in toks[1..];
      assert TitleFlag in toks <==> t == TitleFlag || TitleFlag in toks[1..];
    }
  }

  /**
    The parse, stated without the reducer: `body`/`title` are set iff their
    flag is one of the tokens, and the query is every other token in order,
    minus the leading empty ones, joined with single spaces.
   */
  lemma ParseCharacterized(toks: seq<string>)
    ensures ParseTokens(NoParams, toks).query == Join(DropLeadingEmpty(Filter(IsTermTest(), toks)))
    ensures ParseTokens(NoParams, toks).body <==> BodyFlag in toks
    ensures ParseTokens(NoParams, toks).title <==> TitleFlag in toks
  {
    ParseTokensSplitsFlags(NoParams, toks);
    AppendAllFromEmpty(Filter(IsTermTest(), toks));
  }

  /** Giving a flag twice in a row has the same effect as giving it once. */
  lemma RepeatedFlagIsIdempotent(a: seq<string>, flag: string, b: seq<string>)
    requires flag == BodyFlag || flag == TitleFlag
    ensures ParseTokens(NoParams, a + [flag, flag] + b) == ParseTokens(NoParams, a + [flag] + b)
  {
    ParseCharacterized(a + [flag, flag] + b);
    ParseCharacterized(a + [flag] + b);
    FilterConcat(IsTermTest(), a + [flag, flag], b);
    FilterConcat(IsTermTest(), a, [flag, flag]);
    FilterConcat(IsTermTest(), a + [flag], b);
    FilterConcat(IsTermTest(), a, [flag]);
    assert Filter(IsTermTest(), [flag, flag]) == [];
    assert Filter(IsTermTest(), [flag]) == [];
  }

  /**
    Flags count only through whether they occur: token lists with the same
    query words, in the same order, and the same flags present parse alike,
    however often and wherever the flags appear.
   */
  lemma ParseDependsOnFlagPresence(a: seq<string>, b: seq<string>)
    requires Filter(IsTermTest(), a) == Filter(IsTermTest(), b)
    requires BodyFlag in a <==> BodyFlag in b
    requires TitleFlag in a <==> TitleFlag in b
    ensures ParseTokens(NoParams, a) == ParseTokens(NoParams, b)
  {
    ParseCharacterized(a);
    ParseCharacterized(b);
  }

  /** Splitting the parsed query on spaces never yields a flag. */
  lemma FlagsNeverInQuery(input: string)
    ensures forall tok :: tok in Split(ParseSearchQuery(input).query) ==> IsTerm(tok)
  {
    var toks := Split(input);
    var terms := DropLeadingEmpty(Filter(IsTermTest(), toks));
    ParseCharacterized(toks);
    QueryWordsAreTerms(toks);
    TermsSplitBack(terms);
  }

  /** Every word is a term and free of spaces. */
  predicate SpaceFreeTerms(words: seq<string>)
  {
    forall i :: 0 <= i < |words| ==> IsTerm(words[i]) && ' ' !in words[i]
  }

  /** Space-free terms joined and split again yield only terms. */
  lemma TermsSplitBack(terms: seq<string>)
    requires SpaceFreeTerms(terms)
    ensures forall tok :: tok in Split(Join(terms)) ==> IsTerm(tok)
  {
    if terms == [] {
      assert Split(Join(terms)) == [""];
    } else {
      SplitJoin(terms);
    }
  }

  /** The words the query is joined from are space-free terms when the tokens are space-free. */
  lemma QueryWordsAreTerms(toks: seq<string>)
    requires forall i :: 0 <= i < |toks| ==> ' ' !in toks[i]
    ensures SpaceFreeTerms(DropLeadingEmpty(Filter(IsTermTest(), toks)))
  {
    var kept := Filter(IsTermTest(), toks);
    FilterTermsSpaceFree(toks);
    var terms := DropLeadingEmpty(kept);
    SuffixKeepsTerms(kept, |kept| - |terms|);
  }

  /** A suffix of space-free terms is space-free terms. */
  lemma SuffixKeepsTerms(words: seq<string>, k: nat)
    requires SpaceFreeTerms(words) && k <= |words|
    ensures SpaceFreeTerms(words[k..])
  {
    var rest := words[k..];
    forall i | 0 <= i < |rest| ensures IsTerm(rest[i]) && ' ' !in rest[i] {
      assert rest[i] == words[k + i];
    }
  }

  /** Filtering space-free tokens keeps space-free terms. */
  lemma {:induction false} FilterTermsSpaceFree(toks: seq<string>)
    requires forall i :: 0 <= i < |toks| ==> ' ' !in toks[i]
    ensures SpaceFreeTerms(Filter(IsTermTest(), toks))
  {
    if |toks| > 0 {
      var rest := toks[1..];
      assert forall i :: 0 <= i < |rest| ==> rest[i] == toks[i + 1];
      FilterTermsSpaceFree(rest);
      var tail := Filter(IsTermTest(), rest);
      if IsTerm(toks[0]) {
        var kept := [toks[0]] + tail;
        assert Filter(IsTermTest(), toks) == kept;
        assert forall i :: 1 <= i < |kept| ==> kept[i] == tail[i - 1];
      } else {
        assert Filter(IsTermTest(), toks) == tail;
      }
    }
  }

  /**
    Without flags, and without a leading space, the input comes back as the
    query character for character: runs of spaces inside it and spaces at its
    end are kept, not collapsed.
   */
  lemma FlaglessInputIsKept(input: string)
    requires forall tok :: tok in Split(input) ==> IsTerm(tok)
    requires input == [] || input[0] != ' '
    ensures ParseSearchQuery(input).query == input
  {
    var toks := Split(input);
    FilterKeepsAll(IsTermTest(), toks);
    ParseCharacterized(toks);
    JoinSplit(input);
    if input != [] {
      assert toks[0] != "";
    }
  }

  /** A leading space changes nothing: `split` yields an empty first token, which the reducer drops. */
  lemma LeadingSpaceIgnored(input: string)
    ensures ParseSearchQuery([' '] + input) == ParseSearchQuery(input)
  {
    var s := [' '] + input;
    assert s[1..] == input;
    assert Split(s) == [""] + Split(input);
    ParseCharacterized(Split(s));
    ParseCharacterized(Split(input));
    FilterConcat(IsTermTest(), [""], Split(input));
  }

  /**
    The input `--title hello world --body`, written as its four words joined
    by spaces, parses to the query `hello world` with both flags set.
   */
  lemma ExampleParse()
    ensures ParseSearchQuery(Join(["--title", "hello", "world", "--body"])) == SearchParams("hello world", true, true)
  {
    var toks := ["--title", "hello", "world", "--body"];
    ExampleSplit();
    ExampleFlags();
    ExampleTerms();
    ExampleQuery();
    ParseCharacterized(toks);
  }

  lemma ExampleSplit()
    ensures Split(Join(["--title", "hello", "world", "--body"])) == ["--title", "hello", "world", "--body"]
  {
    var toks := ["--title", "hello", "world", "--body"];
    assert ' ' !in toks[0] && ' ' !in toks[1] && ' ' !in toks[2] && ' ' !in toks[3];
    SplitJoin(toks);
  }

  lemma ExampleFlags()
    ensures BodyFlag in ["--title", "hello", "world", "--body"]
    ensures TitleFlag in ["--title", "hello", "world", "--body"]
  {
    var toks := ["--title", "hello", "world", "--body"];
    assert toks[3] == BodyFlag && toks[0] == TitleFlag;
  }

  lemma ExampleTerms()
    ensures Filter(IsTermTest(), ["--title", "hello", "world", "--body"]) == ["hello", "world"]
  {
    var toks := ["--title", "hello", "world", "--body"];
    assert Filter(IsTermTest(), toks[3..]) == [];
    assert Filter(IsTermTest(), toks[2..]) == ["world"];
    assert Filter(IsTermTest(), toks[1..]) == ["hello", "world"];
  }

  lemma ExampleQuery()
    ensures Join(DropLeadingEmpty(["hello", "world"])) == "hello world"
  {
    assert DropLeadingEmpty(["hello", "world"]) == ["hello", "world"];
    assert Join(["hello", "world"]) == "hello" + " " + Join(["world"]);
  }

  // ---------------------------------------------------------------------
  // The blank guard

  /** The characters `String.prototype.trim` removes (ECMAScript WhiteSpace and LineTerminator). */
  predicate IsJsWhitespace(c: char)
  {
    var n := c as int;
    n == 0x09 || n == 0x0A || n == 0x0B || n == 0x0C || n == 0x0D || n == 0x20
    || n == 0xA0 || n == 0x1680 || (0x2000 <= n <= 0x200A) || n == 0x2028 || n == 0x2029
    || n == 0x202F || n == 0x205F || n == 0x3000 || n == 0xFEFF
  }

  /** Every character of `s` is whitespace. */
  predicate IsBlank(s: string)
  {
    forall i :: 0 <= i < |s| ==> IsJsWhitespace(s[i])
  }

  /** `s` with its leading whitespace removed. */
  function TrimStart(s: string): (r: string)
    ensures |r| <= |s| && r == s[|s| - |r|..]
    ensures r == [] || !IsJsWhitespace(r[0])
    ensures forall i :: 0 <= i < |s| - |r| ==> IsJsWhitespace(s[i])
  {
    if |s| == 0 || !IsJsWhitespace(s[0]) then s else TrimStart(s[1..])
  }

  /** `s` with its trailing whitespace removed. */
  function TrimEnd(s: string): (r: string)
    ensures |r| <= |s| && r == s[..|r|]
    ensures r == [] || !IsJsWhitespace(r[|r| - 1])
    ensures forall i :: |r| <= i < |s| ==> IsJsWhitespace(s[i])
  {
    if |s| == 0 || !IsJsWhitespace(s[|s| - 1]) then s else TrimEnd(s[..|s| - 1])
  }

  /** `r` is `s` with exactly `k` leading and some trailing whitespace characters cut off. */
  predicate TrimmedAt(s: string, k: nat, r: string)
  {
    k + |r| <= |s| && r == s[k..k + |r|]
    && (forall i :: 0 <= i < k ==> IsJsWhitespace(s[i]))
    && (forall i :: k + |r| <= i < |s| ==> IsJsWhitespace(s[i]))
  }

  /** `r` is `s` between its leading and its trailing whitespace, and starts and ends with neither. */
  ghost predicate TrimOf(s: string, r: string)
  {
    (r == [] || (!IsJsWhitespace(r[0]) && !IsJsWhitespace(r[|r| - 1])))
    && exists k :: TrimmedAt(s, k, r)
  }

  /** `s.trim()`: the part of `s` between its leading and its trailing whitespace. */
  function Trim(s: string): (r: string)
    ensures TrimOf(s, r)
  {
    TrimBothEnds(s);
    TrimEnd(TrimStart(s))
  }

  /** Trimming the end after the start cuts whitespace off both ends and nothing else. */
  lemma TrimBothEnds(s: string)
    ensures var r := TrimEnd(TrimStart(s));
      (r == [] || (!IsJsWhitespace(r[0]) && !IsJsWhitespace(r[|r| - 1])))
      && TrimmedAt(s, |s| - |TrimStart(s)|, r)
  {
    var t := TrimStart(s);
    var r := TrimEnd(t);
    var k := |s| - |t|;
    if r != [] {
      assert r[0] == t[0];
    }
    assert t == s[k..];
    assert r == t[..|r|];
    forall i | k + |r| <= i < |s| ensures IsJsWhitespace(s[i]) {
      assert s[i] == t[i - k];
    }
  }

  /** Trimming leaves nothing exactly when the input is all whitespace. */
  lemma TrimEmptyIffBlank(s: string)
    ensures Trim(s) == "" <==> IsBlank(s)
  {
    if Trim(s) == "" {
      assert TrimStart(s) == [];
    }
  }

  /** What the debounced callback sends: the search request and the history entry. */
  datatype SearchSubmission = SearchSubmission(teamId: string, params: SearchParams, historyEntry: string)

  /**
    The debounced search callback: nothing without a team or with a blank
    input; otherwise the parsed query is added to the search history and
    submitted for the current team.
   */
  function DebouncedSearch(team: Option<string>, input: string): (r: Option<SearchSubmission>)
    ensures r.None? <==> team.None? || Trim(input) == ""
    ensures r.Some? ==> r.value.teamId == team.value && r.value.historyEntry == r.value.params.query
    ensures r.Some? ==> r.value.params == ParseSearchQuery(input)
  {
    if team.None? || Trim(input) == "" then None
    else
      var params := ParseSearchQuery(input);
      Some(SearchSubmission(team.value, params, params.query))
  }

  /** With a team present, a search is sent iff the input has a non-whitespace character. */
  lemma SearchSentIffNotBlank(teamId: string, input: string)
    ensures DebouncedSearch(Some(teamId), input).Some? <==> !IsBlank(input)
  {
    TrimEmptyIffBlank(input);
  }
}
