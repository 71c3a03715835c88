/** Printing and parsing of DNS endpoint labels (api/v1/dns_labels.go). */
module Labels {
  import opened Wrappers
  import opened Strings

  const HERITAGE := "external-dns"

  datatype LabelError = ErrInvalidHeritage

  // ----- Go's strings.Split and strings.Join for one-character separators, strings.Trim for quotes -----

  function Split(s: string, sep: char): (parts: seq<string>)
    ensures |parts| >= 1
  {
    if s == [] then [[]]
    else
      var rest := Split(s[1..], sep);
      if s[0] == sep then [[]] + rest else [[s[0]] + rest[0]] + rest[1..]
  }

  function Join(parts: seq<string>, sep: char): string {
    if parts == [] then []
    else if |parts| == 1 then parts[0]
    else Join(parts[..|parts| - 1], sep) + [sep] + parts[|parts| - 1]
  }

  function TrimRight(s: string): (r: string)
    ensures r <= s && (r != [] ==> r[|r| - 1] != '"')
  {
    if s != [] && s[|s| - 1] == '"' then TrimRight(s[..|s| - 1]) else s
  }

  function TrimQuotes(s: string): string {
    if s != [] && s[0] == '"' then TrimQuotes(s[1..]) else TrimRight(s)
  }

  ghost predicate AllQuotes(s: string) {
    forall c :: c in s ==> c == '"'
  }

  lemma {:induction false} TrimRightExactly(s: string) returns (right: string)
    ensures s == TrimRight(s) + right && AllQuotes(right)
  {
    if s != [] && s[|s| - 1] == '"' {
      var more := TrimRightExactly(s[..|s| - 1]);
      right := more + ['"'];
      assert s == s[..|s| - 1] + ['"'];
    } else {
      right := [];
    }
  }

  /** Trimming removes quotes at both ends, nothing else, and all of them. */
  lemma {:induction false} TrimExactly(s: string) returns (left: string, right: string)
    ensures s == left + TrimQuotes(s) + right && AllQuotes(left) && AllQuotes(right)
    ensures TrimQuotes(s) != [] ==> TrimQuotes(s)[0] != '"' && TrimQuotes(s)[|TrimQuotes(s)| - 1] != '"'
  {
    if s != [] && s[0] == '"' {
      left, right := TrimExactly(s[1..]);
      assert s == ['"'] + s[1..];
      left := ['"'] + left;
    } else {
      left := [];
      right := TrimRightExactly(s);
    }
  }

  lemma {:induction false} SplitClean(s: string, sep: char)
    requires sep !in s
    ensures Split(s, sep) == [s]
  {
    if s != [] {
      SplitClean(s[1..], sep);
      assert s == [s[0]] + s[1..];
    }
  }

  lemma {:induction false} SplitConcat(a: string, b: string, sep: char)
    ensures Split(a + [sep] + b, sep) == Split(a, sep) + Split(b, sep)
  {
    var whole := a + [sep] + b;
    if a == [] {
      assert whole[1..] == b;
    } else {
      assert whole[1..] == a[1..] + [sep] + b;
      SplitConcat(a[1..], b, sep);
    }
  }

  /** Parts contain no separator, and nothing that was not in the text. */
  lemma {:induction false} SplitParts(s: string, sep: char)
    ensures forall part, c :: part in Split(s, sep) && c in part ==> c != sep && c in s
  {
    if s != [] {
      SplitParts(s[1..], sep);
      var rest := Split(s[1..], sep);
      forall part, c | part in Split(s, sep) && c in part
        ensures c != sep && c in s
      {
        assert part in rest || (part == [s[0]] + rest[0] && s[0] != sep);
        assert rest[0] in rest;
      }
    }
  }

  lemma {:induction false} SplitJoin(parts: seq<string>, sep: char)
    requires parts != [] && forall p :: p in parts ==> sep !in p
    ensures Split(Join(parts, sep), sep) == parts
  {
    var last := parts[|parts| - 1];
    SplitClean(last, sep);
    if |parts| > 1 {
      var init := parts[..|parts| - 1];
      SplitJoin(init, sep);
      SplitConcat(Join(init, sep), last, sep);
    }
  }

  // ----- parsing -----

  predicate IsPair(token: string) {
    |Split(token, '=')| == 2
  }

  function KeyOf(token: string): string
    requires IsPair(token)
  {
    Split(token, '=')[0]
  }

  function ValueOf(token: string): string
    requires IsPair(token)
  {
    Split(token, '=')[1]
  }

  /** The heritage of some other owner. */
  predicate IsForeign(token: string) {
    IsPair(token) && KeyOf(token) == "heritage" && ValueOf(token) != HERITAGE
  }

  predicate IsOurs(token: string) {
    IsPair(token) && KeyOf(token) == "heritage" && ValueOf(token) == HERITAGE
  }

  predicate IsLabel(token: string) {
    IsPair(token) && KeyOf(token) != "heritage" && HasPrefix(KeyOf(token), HERITAGE)
  }

  function LabelKey(token: string): string
    requires IsPair(token)
  {
    TrimPrefix(KeyOf(token), HERITAGE + "/")
  }

  /** The map of the label tokens; the last token of a key decides its value. */
  ghost predicate Collected(tokens: seq<string>, m: map<string, string>) {
    && (forall k :: k in m ==> exists i :: LastFor(tokens, k, i))
    && (forall k, i :: LastFor(tokens, k, i) ==> k in m && m[k] == ValueOf(tokens[i]))
  }

  ghost predicate LastFor(tokens: seq<string>, k: string, i: int) {
    && 0 <= i < |tokens| && IsLabel(tokens[i]) && LabelKey(tokens[i]) == k
    && forall j :: i < j < |tokens| && IsLabel(tokens[j]) ==> LabelKey(tokens[j]) != k
  }

  /** What parsing owes: an error iff the heritage is foreign or missing, else the collected labels. */
  ghost predicate Parses(text: string, r: Result<map<string, string>, LabelError>) {
    var tokens := Split(TrimQuotes(text), ',');
    && (r.Failure? <==> (exists t :: t in tokens && IsForeign(t)) || !(exists t :: t in tokens && IsOurs(t)))
    && (r.Success? ==> Collected(tokens, r.value))
  }

  method NewLabelsFromString(text: string) returns (r: Result<map<string, string>, LabelError>)
    ensures Parses(text, r)
  {
    var labels: map<string, string> := map[];
    var tokens := Split(TrimQuotes(text), ',');
    var found := false;
    for i := 0 to |tokens|
      invariant forall t :: t in tokens[..i] ==> !IsForeign(t)
      invariant found <==> exists t :: t in tokens[..i] && IsOurs(t)
      invariant Collected(tokens[..i], labels)
    {
      var token := tokens[i];
      assert tokens[..i + 1] == tokens[..i] + [token];
      CollectedSnoc(tokens[..i], token, labels);
      if |Split(token, '=')| != 2 {
        continue;
      }
      var key, val := Split(token, '=')[0], Split(token, '=')[1];
      if key == "heritage" && val != HERITAGE {
        assert token in tokens && IsForeign(token);
        return Failure(ErrInvalidHeritage);
      }
      if key == "heritage" {
        assert IsOurs(token) && token in tokens[..i + 1];
        found := true;
        continue;
      }
      if HasPrefix(key, HERITAGE) {
        labels := labels[TrimPrefix(key, HERITAGE + "/") := val];
      }
    }
    assert tokens[..|tokens|] == tokens;
    if !found {
      return Failure(ErrInvalidHeritage);
    }
    r := Success(labels);
  }

  lemma CollectedSnoc(tokens: seq<string>, t: string, m: map<string, string>)
    requires Collected(tokens, m)
    ensures Collected(tokens + [t], if IsLabel(t) then m[LabelKey(t) := ValueOf(t)] else m)
  {
    var more, n := tokens + [t], |tokens|;
    assert more[n] == t && forall j :: 0 <= j < n ==> more[j] == tokens[j];
    var m' := if IsLabel(t) then m[LabelKey(t) := ValueOf(t)] else m;
    forall k | k in m'
      ensures exists i :: LastFor(more, k, i)
    {
      if IsLabel(t) && k == LabelKey(t) {
        assert LastFor(more, k, n);
      } else {
        var i :| LastFor(tokens, k, i);
        assert LastFor(more, k, i);
      }
    }
    forall k, i | LastFor(more, k, i)
      ensures k in m' && m'[k] == ValueOf(more[i])
    {
      if i < n {
        assert LastFor(tokens, k, i);
      }
    }
  }

  /** The contract leaves the parser no choice. */
  lemma ParsesUnique(text: string, r: Result<map<string, string>, LabelError>, s: Result<map<string, string>, LabelError>)
    requires Parses(text, r) && Parses(text, s)
    ensures r == s
  {
    if r.Success? {
      CollectedUnique(Split(TrimQuotes(text), ','), r.value, s.value);
    } else {
      match r.error
      case ErrInvalidHeritage =>
        assert s.error.ErrInvalidHeritage?;
    }
  }

  lemma CollectedUnique(tokens: seq<string>, m: map<string, string>, n: map<string, string>)
    requires Collected(tokens, m) && Collected(tokens, n)
    ensures m == n
  {
    hide LastFor;
    forall k | k in m
      ensures k in n && n[k] == m[k]
    {
      var i :| LastFor(tokens, k, i);
    }
    forall k | k in n
      ensures k in m
    {
      var i :| LastFor(tokens, k, i);
    }
  }

  // ----- printing -----

  function TokenHead(k: string): string {
    HERITAGE + "/" + k + "="
  }

  function Token(k: string, v: string): string {
    TokenHead(k) + v
  }

  function Tokens(l: map<string, string>, keys: seq<string>): seq<string>
    requires forall k :: k in keys ==> k in l
  {
    ["heritage=" + HERITAGE] + seq(|keys|, i requires 0 <= i < |keys| => Token(keys[i], l[keys[i]]))
  }

  function Render(l: map<string, string>, keys: seq<string>, withQuotes: bool): string
    requires forall k :: k in keys ==> k in l
  {
    var text := Join(Tokens(l, keys), ',');
    if withQuotes then "\"" + text + "\"" else text
  }

  /** Keys are collected in an arbitrary order and sorted, so the text is a function of the map. */
  method Serialize(l: map<string, string>, withQuotes: bool) returns (text: string)
    ensures exists keys :: Lists(keys, l.Keys)
    ensures forall keys :: Lists(keys, l.Keys) ==> (forall k :: k in keys ==> k in l) && text == Render(l, keys, withQuotes)
  {
    var tokens := ["heritage=" + HERITAGE];
    var keys := SortedListing(l.Keys);
    assert forall k :: k in keys <==> k in Elements(keys);
    for i := 0 to |keys|
      invariant tokens == Tokens(l, keys)[..i + 1]
    {
      assert keys[i] in Elements(keys);
      tokens := tokens + [HERITAGE + "/" + keys[i] + "=" + l[keys[i]]];
    }
    assert tokens == Tokens(l, keys);
    forall other | Lists(other, l.Keys)
      ensures other == keys
    {
      ListingUnique(other, keys);
    }
    text := Join(tokens, ',');
    if withQuotes {
      text := "\"" + text + "\"";
    }
  }

  // ----- round trip -----

  predicate CleanText(s: string) {
    ',' !in s && '=' !in s
  }

  /** No comma and no equals sign in any key or value. */
  ghost predicate Clean(l: map<string, string>) {
    forall k :: k in l ==> CleanText(k) && CleanText(l[k])
  }

  lemma PairToken(a: string, b: string)
    requires '=' !in a && '=' !in b
    ensures IsPair(a + "=" + b) && KeyOf(a + "=" + b) == a && ValueOf(a + "=" + b) == b
  {
    SplitClean(a, '=');
    SplitClean(b, '=');
    SplitConcat(a, b, '=');
  }

  lemma LabelTokenParses(k: string, v: string)
    requires CleanText(k) && CleanText(v)
    ensures ',' !in Token(k, v)
    ensures IsLabel(Token(k, v)) && LabelKey(Token(k, v)) == k && ValueOf(Token(k, v)) == v
  {
    var key := HERITAGE + "/" + k;
    PairToken(key, v);
    assert Token(k, v) == key + "=" + v;
    assert key[0] == 'e' && key[..|HERITAGE|] == HERITAGE && key[..|HERITAGE + "/"|] == HERITAGE + "/";
  }

  lemma HeritageToken()
    ensures var t := "heritage=" + HERITAGE; IsOurs(t) && !IsLabel(t) && !IsForeign(t) && ',' !in t
  {
    PairToken("heritage", HERITAGE);
    assert "heritage=" + HERITAGE == "heritage" + "=" + HERITAGE;
  }

  lemma LabelIsNotForeign(t: string)
    ensures IsLabel(t) ==> IsPair(t) && !IsForeign(t)
  {}

  /** Each printed token is read back as what it was printed from. */
  lemma TokensParse(l: map<string, string>, keys: seq<string>)
    requires (forall k :: k in keys <==> k in l) && Clean(l)
    ensures var tokens := Tokens(l, keys);
            && IsOurs(tokens[0]) && !IsLabel(tokens[0])
            && (forall t :: t in tokens ==> ',' !in t && !IsForeign(t))
            && (forall i :: 0 <= i < |keys| ==>
                  IsLabel(tokens[i + 1]) && LabelKey(tokens[i + 1]) == keys[i] && ValueOf(tokens[i + 1]) == l[keys[i]])
  {
    HeritageToken();
    hide IsLabel, IsOurs, IsForeign, Token, LabelKey, ValueOf, IsPair;
    var tokens := Tokens(l, keys);
    forall i | 0 <= i < |keys|
      ensures ',' !in tokens[i + 1] && IsLabel(tokens[i + 1]) && !IsForeign(tokens[i + 1])
      ensures IsPair(tokens[i + 1]) && LabelKey(tokens[i + 1]) == keys[i] && ValueOf(tokens[i + 1]) == l[keys[i]]
    {
      LabelTokenParses(keys[i], l[keys[i]]);
      LabelIsNotForeign(tokens[i + 1]);
    }
    forall t | t in tokens
      ensures ',' !in t && !IsForeign(t)
    {
      var i :| 0 <= i < |tokens| && tokens[i] == t;
      assert i > 0 ==> t == tokens[(i - 1) + 1];
    }
  }

  /** Parsing gives back a clean map from any text whose unquoted part is the joined tokens. */
  lemma CleanRoundTrip(l: map<string, string>, keys: seq<string>, text: string,
                       r: Result<map<string, string>, LabelError>)
    requires Lists(keys, l.Keys) && (forall k :: k in keys <==> k in l) && Clean(l)
    requires TrimQuotes(text) == Join(Tokens(l, keys), ',') && Parses(text, r)
    ensures r == Success(l)
  {
    JoinedTokens(l, keys);
    hide IsOurs, IsForeign, Tokens, Collected, TrimQuotes, Join, Split, Clean;
    ParsesUnique(text, r, Success(l));
  }

  lemma JoinedTokens(l: map<string, string>, keys: seq<string>)
    requires Lists(keys, l.Keys) && (forall k :: k in keys <==> k in l) && Clean(l)
    ensures var tokens := Split(Join(Tokens(l, keys), ','), ',');
            && (forall t :: t in tokens ==> !IsForeign(t)) && (exists t :: t in tokens && IsOurs(t))
            && Collected(tokens, l)
  {
    var tokens := Tokens(l, keys);
    TokensParse(l, keys);
    hide IsLabel, IsOurs, IsForeign, Tokens, LabelKey, ValueOf, IsPair, Collected, Join, Split, Clean;
    SplitJoin(tokens, ',');
    assert tokens[0] in tokens;
    TokensCollected(l, keys, tokens);
  }

  lemma TokensCollected(l: map<string, string>, keys: seq<string>, tokens: seq<string>)
    requires Ascending(keys) && (forall k :: k in keys <==> k in l)
    requires |tokens| == |keys| + 1 && !IsLabel(tokens[0])
    requires forall i :: 0 <= i < |keys| ==>
               IsLabel(tokens[i + 1]) && LabelKey(tokens[i + 1]) == keys[i] && ValueOf(tokens[i + 1]) == l[keys[i]]
    ensures Collected(tokens, l)
  {
    forall k | k in l
      ensures exists i :: LastFor(tokens, k, i)
    {
      var i :| 0 <= i < |keys| && keys[i] == k;
      forall j | i + 1 < j < |tokens| && IsLabel(tokens[j])
        ensures LabelKey(tokens[j]) != k
      {
        assert LabelKey(tokens[j - 1 + 1]) == keys[j - 1];
        BeforeIrreflexive(k);
      }
      assert LastFor(tokens, k, i + 1);
    }
    forall k, i | LastFor(tokens, k, i)
      ensures k in l && l[k] == ValueOf(tokens[i])
    {
      assert LabelKey(tokens[i - 1 + 1]) == keys[i - 1];
    }
  }

  lemma {:induction false} TrimRightAfter(a: string, v: string)
    requires a != [] && a[|a| - 1] != '"'
    ensures TrimRight(a + v) == a + TrimRight(v)
  {
    if v != [] {
      assert (a + v)[..|a + v| - 1] == a + v[..|v| - 1];
      TrimRightAfter(a, v[..|v| - 1]);
    } else {
      assert a + v == a;
    }
  }

  /** The map that survives the trimming of quotes: the last value loses its trailing quotes. */
  function Trimmed(l: map<string, string>, keys: seq<string>): map<string, string>
    requires forall k :: k in keys ==> k in l
  {
    if keys == [] then l
    else var k := keys[|keys| - 1]; l[k := TrimRight(l[k])]
  }

  lemma {:induction false} JoinHead(parts: seq<string>, sep: char)
    requires parts != [] && parts[0] != []
    ensures Join(parts, sep) != [] && Join(parts, sep)[0] == parts[0][0]
  {
    if |parts| > 1 {
      JoinHead(parts[..|parts| - 1], sep);
    }
  }

  /** Unquoting a printed map leaves the joined tokens of the trimmed map. */
  lemma RenderTrims(l: map<string, string>, keys: seq<string>, withQuotes: bool)
    requires Ascending(keys) && forall k :: k in keys ==> k in l
    ensures TrimQuotes(Render(l, keys, withQuotes)) == Join(Tokens(Trimmed(l, keys), keys), ',')
  {
    var tokens := Tokens(l, keys);
    var text := Join(tokens, ',');
    JoinHead(tokens, ',');
    UnquoteText(text);
    if keys == [] {
      assert tokens == ["heritage=" + HERITAGE];
      assert text[|text| - 1] == 's';
    } else {
      LastTokenTrims(l, keys);
    }
  }

  lemma UnquoteText(text: string)
    requires text != [] && text[0] == 'h'
    ensures TrimQuotes(text) == TrimQuotes("\"" + text + "\"") == TrimRight(text)
  {
    assert (text + "\"")[..|text|] == text;
    assert ("\"" + text + "\"")[1..] == text + "\"";
  }

  lemma LastTokenTrims(l: map<string, string>, keys: seq<string>)
    requires Ascending(keys) && keys != [] && forall k :: k in keys ==> k in l
    ensures TrimRight(Join(Tokens(l, keys), ',')) == Join(Tokens(Trimmed(l, keys), keys), ',')
  {
    var init, k := keys[..|keys| - 1], keys[|keys| - 1];
    var l' := Trimmed(l, keys);
    forall i | 0 <= i < |init|
      ensures init[i] in l && init[i] != k
    {
      assert keys[i] in keys;
      BeforeIrreflexive(k);
    }
    hide Join, Token, TokenHead;
    TokensSnoc(l, init, k);
    TokensSnoc(l', init, k);
    assert init + [k] == keys;
    assert Tokens(l', init) == Tokens(l, init);
    assert TokenHead(k)[|TokenHead(k)| - 1] == '=';
    TrimsTail(Join(Tokens(l, init), ',') + [','], TokenHead(k), l[k]);
  }

  lemma TrimsTail(a: string, b: string, v: string)
    requires b != [] && b[|b| - 1] == '='
    ensures TrimRight(a + (b + v)) == a + (b + TrimRight(v))
  {
    TrimRightAfter(a + b, v);
    assert a + (b + v) == (a + b) + v && a + (b + TrimRight(v)) == (a + b) + TrimRight(v);
  }

  lemma TokensSnoc(l: map<string, string>, init: seq<string>, k: string)
    requires k in l && forall x :: x in init ==> x in l
    ensures Join(Tokens(l, init + [k]), ',') == Join(Tokens(l, init), ',') + [','] + Token(k, l[k])
  {
    var tokens := Tokens(l, init + [k]);
    assert tokens[..|tokens| - 1] == Tokens(l, init);
  }

  /** Whatever parsing returns has no comma and no equals sign in it. */
  lemma ParsedIsClean(text: string, m: map<string, string>)
    requires Parses(text, Success(m))
    ensures Clean(m)
  {
    var tokens := Split(TrimQuotes(text), ',');
    SplitParts(TrimQuotes(text), ',');
    forall k | k in m
      ensures CleanText(k) && CleanText(m[k])
    {
      var i :| LastFor(tokens, k, i);
      var t := tokens[i];
      assert t in tokens;
      SplitParts(t, '=');
      assert KeyOf(t) in Split(t, '=') && ValueOf(t) in Split(t, '=');
      assert forall c :: c in k ==> c in KeyOf(t);
    }
  }

  /** Round trip, exactly: parsing the printed map gives the map back, with and without quotes, if
    * and only if no key or value has a comma or an equals sign and the value of the greatest key
    * does not end in a double quote. */
  lemma RoundTripExactly(l: map<string, string>, keys: seq<string>, withQuotes: bool,
                         r: Result<map<string, string>, LabelError>)
    requires Lists(keys, l.Keys) && (forall k :: k in keys <==> k in l)
    requires Parses(Render(l, keys, withQuotes), r)
    ensures r == Success(l)
       <==> Clean(l) && (keys != [] ==> !HasSuffix(l[keys[|keys| - 1]], "\""))
  {
    var text, l' := Render(l, keys, withQuotes), Trimmed(l, keys);
    RenderTrims(l, keys, withQuotes);
    if r == Success(l) {
      ParsedIsClean(text, l);
    }
    if Clean(l) {
      TrimmedClean(l, keys);
      assert l'.Keys == l.Keys;
      CleanRoundTrip(l', keys, text, r);
    }
  }

  lemma TrimmedClean(l: map<string, string>, keys: seq<string>)
    requires Clean(l) && forall k :: k in keys ==> k in l
    ensures Clean(Trimmed(l, keys))
    ensures Trimmed(l, keys) == l <==> (keys != [] ==> !HasSuffix(l[keys[|keys| - 1]], "\""))
  {
    if keys != [] {
      var v := l[keys[|keys| - 1]];
      assert CleanText(TrimRight(v));
      assert HasSuffix(v, "\"") <==> v != [] && v[|v| - 1] == '"' by {
        if v != [] {
          assert v[|v| - 1..] == [v[|v| - 1]];
        }
      }
      assert HasSuffix(v, "\"") <==> TrimRight(v) != v;
    }
  }

  // ----- the text itself -----

  /** The flag adds a quote at each end and nothing else; without it there is none at the start, and none at
    * the end unless the greatest key's value ends in one. */
  lemma QuotesExactly(l: map<string, string>, keys: seq<string>, withQuotes: bool)
    requires forall k :: k in keys ==> k in l
    ensures var text := Render(l, keys, withQuotes);
            && Render(l, keys, true) == ['"'] + Render(l, keys, false) + ['"']
            && text != [] && (text[0] == '"' <==> withQuotes)
            && (text[|text| - 1] == '"' <==> withQuotes || (keys != [] && HasSuffix(l[keys[|keys| - 1]], "\"")))
  {
    var tokens := Tokens(l, keys);
    JoinHead(tokens, ',');
    assert tokens[0][0] == 'h';
    var text := Join(tokens, ',');
    if keys == [] {
      assert tokens == ["heritage=" + HERITAGE] && text[|text| - 1] == 's';
    } else {
      var k := keys[|keys| - 1];
      assert keys == keys[..|keys| - 1] + [k];
      TokensSnoc(l, keys[..|keys| - 1], k);
      EndsLikeValue(Join(Tokens(l, keys[..|keys| - 1]), ',') + [','], TokenHead(k), l[k]);
    }
  }

  lemma EndsLikeValue(a: string, b: string, v: string)
    requires b != [] && b[|b| - 1] == '='
    ensures var text := a + (b + v); text[|text| - 1] == '"' <==> HasSuffix(v, "\"")
  {
    var text := a + (b + v);
    if v == [] {
      assert text == a + b;
    } else {
      assert text[|text| - 1] == v[|v| - 1];
      assert v[|v| - 1..] == [v[|v| - 1]];
    }
  }

  lemma NoLabelsText()
    ensures Render(map[], [], false) == "heritage=external-dns"
  {
    assert "heritage=" + HERITAGE == "heritage=external-dns";
    assert Tokens(map[], []) == ["heritage=" + HERITAGE];
  }

  lemma OneLabelText(l: map<string, string>, k: string, v: string)
    requires l == map[k := v]
    ensures Render(l, [k], false) == "heritage=external-dns" + [','] + ("external-dns/" + k + "=" + v)
  {
    NoLabelsText();
    assert [] + [k] == [k];
    TokensSnoc(l, [], k);
    assert Tokens(l, []) == Tokens(map[], []);
    assert HERITAGE + "/" == "external-dns/";
  }

  // ----- what any text parses to -----

  /** Tokens as their fields: what stands between the equals signs. */
  function FieldTexts(fields: seq<seq<string>>): seq<string> {
    seq(|fields|, i requires 0 <= i < |fields| => Join(fields[i], '='))
  }

  /** The label that a key names: without the prefix if it has a slash after it, whole if it has not. */
  function LabelNamed(key: string): Option<string> {
    if |key| >= 13 && key[..13] == "external-dns/" then Some(key[13..])
    else if |key| >= 12 && key[..12] == "external-dns" then Some(key)
    else None
  }

  ghost predicate LastNamed(fields: seq<seq<string>>, k: string, i: int) {
    && 0 <= i < |fields| && |fields[i]| == 2 && LabelNamed(fields[i][0]) == Some(k)
    && forall j :: i < j < |fields| && |fields[j]| == 2 ==> LabelNamed(fields[j][0]) != Some(k)
  }

  ghost predicate CleanFields(fields: seq<seq<string>>) {
    fields != [] && forall f :: f in fields ==> f != [] && forall x :: x in f ==> CleanText(x)
  }

  lemma {:induction false} JoinKeepsOut(parts: seq<string>, sep: char, c: char)
    requires c != sep && forall p :: p in parts ==> c !in p
    ensures c !in Join(parts, sep)
  {
    if |parts| > 1 {
      JoinKeepsOut(parts[..|parts| - 1], sep, c);
    }
  }

  lemma FieldsBack(f: seq<string>)
    requires f != [] && forall x :: x in f ==> CleanText(x)
    ensures Split(Join(f, '='), '=') == f && ',' !in Join(f, '=')
  {
    assert forall x :: x in f ==> '=' !in x && ',' !in x;
    SplitJoin(f, '=');
    JoinKeepsOut(f, '=', ',');
  }

  lemma LabelNamedExactly(token: string)
    requires IsPair(token)
    ensures IsLabel(token) <==> LabelNamed(KeyOf(token)).Some?
    ensures IsLabel(token) ==> LabelNamed(KeyOf(token)) == Some(LabelKey(token))
  {
    var key := KeyOf(token);
    assert |HERITAGE| == 12 && |HERITAGE + "/"| == 13 && HERITAGE + "/" == "external-dns/";
    assert "heritage"[0] != HERITAGE[0];
    if |key| >= 13 && key[..13] == "external-dns/" {
      assert key[..12] == key[..13][..12] == "external-dns";
    }
  }

  lemma TokenOfFields(token: string, f: seq<string>)
    requires Split(token, '=') == f
    ensures IsPair(token) <==> |f| == 2
    ensures IsForeign(token) <==> |f| == 2 && f[0] == "heritage" && f[1] != "external-dns"
    ensures IsOurs(token) <==> f == ["heritage", "external-dns"]
    ensures IsLabel(token) <==> |f| == 2 && LabelNamed(f[0]).Some?
    ensures IsLabel(token) ==> LabelNamed(f[0]) == Some(LabelKey(token)) && ValueOf(token) == f[1]
  {
    if IsPair(token) {
      LabelNamedExactly(token);
      assert f == [f[0], f[1]];
    }
  }

  /** Any text, as its tokens' fields: parsing fails if and only if some token names a foreign heritage or
    * none names ours; otherwise it yields the named labels, the last of a name deciding, and skips tokens
    * that are not pairs. */
  lemma ParsesFieldsExactly(fields: seq<seq<string>>, text: string, r: Result<map<string, string>, LabelError>)
    requires CleanFields(fields) && TrimQuotes(text) == Join(FieldTexts(fields), ',') && Parses(text, r)
    ensures r.Failure? <==>
              || (exists f :: f in fields && |f| == 2 && f[0] == "heritage" && f[1] != "external-dns")
              || ["heritage", "external-dns"] !in fields
    ensures r.Success? ==> forall k :: k in r.value ==> exists i :: LastNamed(fields, k, i)
    ensures r.Success? ==> forall k, i :: LastNamed(fields, k, i) ==> k in r.value && r.value[k] == fields[i][1]
  {
    var tokens := Split(TrimQuotes(text), ',');
    FieldsSplit(fields);
    assert tokens == FieldTexts(fields);
    hide Split, Join, TrimQuotes, IsLabel, IsOurs, IsForeign, IsPair, LabelKey, ValueOf, LabelNamed, CleanText;
    forall i | 0 <= i < |fields|
      ensures FieldToken(tokens[i], fields[i])
    {
      assert fields[i] in fields;
      FieldsBack(fields[i]);
      TokenOfFields(tokens[i], fields[i]);
    }
    hide FieldTexts, CleanFields;
    FailsByFields(tokens, fields);
    if r.Success? {
      CollectsFields(tokens, fields, r.value);
    }
  }

  lemma FieldsSplit(fields: seq<seq<string>>)
    requires CleanFields(fields)
    ensures Split(Join(FieldTexts(fields), ','), ',') == FieldTexts(fields)
  {
    forall t | t in FieldTexts(fields)
      ensures ',' !in t
    {
      var i :| 0 <= i < |fields| && FieldTexts(fields)[i] == t;
      assert fields[i] in fields;
      FieldsBack(fields[i]);
    }
    SplitJoin(FieldTexts(fields), ',');
  }

  ghost predicate FieldToken(token: string, f: seq<string>) {
    && (IsForeign(token) <==> |f| == 2 && f[0] == "heritage" && f[1] != "external-dns")
    && (IsOurs(token) <==> f == ["heritage", "external-dns"])
    && (IsLabel(token) <==> |f| == 2 && LabelNamed(f[0]).Some?)
    && (IsLabel(token) ==> IsPair(token) && LabelNamed(f[0]) == Some(LabelKey(token)) && ValueOf(token) == f[1])
  }

  lemma FailsByFields(tokens: seq<string>, fields: seq<seq<string>>)
    requires |tokens| == |fields| && forall i :: 0 <= i < |fields| ==> FieldToken(tokens[i], fields[i])
    ensures (exists t :: t in tokens && IsForeign(t))
       <==> (exists f :: f in fields && |f| == 2 && f[0] == "heritage" && f[1] != "external-dns")
    ensures (exists t :: t in tokens && IsOurs(t)) <==> ["heritage", "external-dns"] in fields
  {
    hide IsForeign, IsOurs, IsLabel, LabelNamed, IsPair, LabelKey, ValueOf;
    if t :| t in tokens && IsForeign(t) {
      var i :| 0 <= i < |tokens| && tokens[i] == t;
      assert FieldToken(tokens[i], fields[i]) && fields[i] in fields;
    }
    if f :| f in fields && |f| == 2 && f[0] == "heritage" && f[1] != "external-dns" {
      var i :| 0 <= i < |fields| && fields[i] == f;
      assert FieldToken(tokens[i], fields[i]) && tokens[i] in tokens;
    }
    if t :| t in tokens && IsOurs(t) {
      var i :| 0 <= i < |tokens| && tokens[i] == t;
      assert FieldToken(tokens[i], fields[i]) && fields[i] in fields;
    }
    if ["heritage", "external-dns"] in fields {
      var i :| 0 <= i < |fields| && fields[i] == ["heritage", "external-dns"];
      assert FieldToken(tokens[i], fields[i]) && tokens[i] in tokens;
    }
  }

  lemma CollectsFields(tokens: seq<string>, fields: seq<seq<string>>, m: map<string, string>)
    requires |tokens| == |fields| && forall i :: 0 <= i < |fields| ==> FieldToken(tokens[i], fields[i])
    requires Collected(tokens, m)
    ensures forall k :: k in m ==> exists i :: LastNamed(fields, k, i)
    ensures forall k, i :: LastNamed(fields, k, i) ==> k in m && m[k] == fields[i][1]
  {
    hide IsForeign, IsOurs, IsLabel, LabelNamed, LabelKey, ValueOf, IsPair;
    forall k, i
      ensures LastFor(tokens, k, i) <==> LastNamed(fields, k, i)
    {
      LastIsLastNamed(tokens, fields, k, i);
    }
    hide LastFor, LastNamed;
    forall k | k in m
      ensures exists i :: LastNamed(fields, k, i)
    {
      var i :| LastFor(tokens, k, i);
      assert LastNamed(fields, k, i);
    }
    forall k, i | LastNamed(fields, k, i)
      ensures k in m && m[k] == fields[i][1]
    {
      assert LastFor(tokens, k, i);
      ValueOfFields(tokens, fields, k, i);
    }
  }

  lemma ValueOfFields(tokens: seq<string>, fields: seq<seq<string>>, k: string, i: int)
    requires |tokens| == |fields| && forall j :: 0 <= j < |fields| ==> FieldToken(tokens[j], fields[j])
    requires LastFor(tokens, k, i)
    ensures |fields[i]| == 2 && ValueOf(tokens[i]) == fields[i][1]
  {
    assert FieldToken(tokens[i], fields[i]);
  }

  lemma LastIsLastNamed(tokens: seq<string>, fields: seq<seq<string>>, k: string, i: int)
    requires |tokens| == |fields| && forall j :: 0 <= j < |fields| ==> FieldToken(tokens[j], fields[j])
    ensures LastFor(tokens, k, i) <==> LastNamed(fields, k, i)
  {
    hide IsForeign, IsOurs, LabelNamed, ValueOf;
    if 0 <= i < |fields| {
      assert FieldToken(tokens[i], fields[i]);
    }
    if LastFor(tokens, k, i) {
      forall j | i < j < |fields| && |fields[j]| == 2
        ensures LabelNamed(fields[j][0]) != Some(k)
      {
        assert FieldToken(tokens[j], fields[j]);
      }
    }
    if LastNamed(fields, k, i) {
      forall j | i < j < |tokens| && IsLabel(tokens[j])
        ensures LabelKey(tokens[j]) != k
      {
        assert FieldToken(tokens[j], fields[j]);
      }
    }
  }
}
