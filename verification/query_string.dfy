/** `getQueryParams` of js/development.js: the page's search string without
    its first character is scanned with the global regular expression
    `([^&=]+)=([^&]*)`, and every match's two groups, passed through
    `decodeURIComponent`, are stored as a key and its value; a later match
    with the same decoded key overwrites an earlier one.

    `Tokens` is the regular expression's own semantics (leftmost match from
    the last match's end, greedy groups). `PairsOfPieces(SplitAmp(...))` is
    an independent description by `&`-separated pieces, and
    `GetQueryParams` is a single left-to-right scan; both are proved to agree
    with `Tokens`. `decodeURIComponent` is a parameter: `None` stands for the
    `URIError` it throws on a malformed escape. */
module QueryString {
  import opened Base

  /** Raw (not yet decoded) key and value of one match. */
  datatype Pair = Pair(key: string, value: string)

  /** One match of the regular expression: its two groups and the index
      right after it, where the next search starts. */
  datatype Match = Match(key: string, value: string, end: nat)

  /** `window.location.search.substring(1)` */
  function DropFirst(search: string): (q: string)
    ensures |search| > 0 ==> q == search[1..] && search == [search[0]] + q
    ensures |search| == 0 ==> q == ""
  {
    if |search| == 0 then "" else search[1..]
  }

  /** Characters of `[^&=]` and of `[^&]`. */
  predicate KeyChar(c: char) { c != '&' && c != '=' }
  predicate ValueChar(c: char) { c != '&' }

  /** End of the longest run of `[^&=]` starting at `p`. */
  function KeyEnd(s: string, p: nat): (k: nat)
    requires p <= |s|
    ensures p <= k <= |s|
    ensures forall j :: p <= j < k ==> KeyChar(s[j])
    ensures k < |s| ==> !KeyChar(s[k])
    decreases |s| - p
  {
    if p < |s| && KeyChar(s[p]) then KeyEnd(s, p + 1) else p
  }

  /** End of the longest run of `[^&]` starting at `p`. */
  function ValueEnd(s: string, p: nat): (e: nat)
    requires p <= |s|
    ensures p <= e <= |s|
    ensures forall j :: p <= j < e ==> ValueChar(s[j])
    ensures e < |s| ==> s[e] == '&'
    decreases |s| - p
  {
    if p < |s| && ValueChar(s[p]) then ValueEnd(s, p + 1) else p
  }

  /** A run end is determined by the run: it is the first position that
      does not continue it. */
  lemma KeyEndIs(s: string, p: nat, k: nat)
    requires p <= k <= |s|
    requires forall j :: p <= j < k ==> KeyChar(s[j])
    requires k == |s| || !KeyChar(s[k])
    ensures KeyEnd(s, p) == k
    decreases k - p
  {
    if p < k {
      KeyEndIs(s, p + 1, k);
    }
  }

  lemma ValueEndIs(s: string, p: nat, e: nat)
    requires p <= e <= |s|
    requires forall j :: p <= j < e ==> ValueChar(s[j])
    requires e == |s| || s[e] == '&'
    ensures ValueEnd(s, p) == e
    decreases e - p
  {
    if p < e {
      ValueEndIs(s, p + 1, e);
    }
  }

  /** `([^&=]+)=([^&]*)` matches `s[p..e]` with the `=` at `k`, both groups
      taken as long as the string allows. */
  ghost predicate RegexMatch(s: string, p: nat, k: nat, e: nat)
  {
    && p < k && k + 1 <= e <= |s|
    && (forall j :: p <= j < k ==> KeyChar(s[j]))
    && s[k] == '='
    && (forall j :: k < j < e ==> ValueChar(s[j]))
    && (e == |s| || s[e] == '&')
  }

  /** The match a backtracking matcher finds when it tries position `p`. */
  function MatchAt(s: string, p: nat): (m: Option<Match>)
    requires p <= |s|
    ensures m.Some? ==> p < m.value.end <= |s|
  {
    var k := KeyEnd(s, p);
    if p < k < |s| && s[k] == '=' then
      var e := ValueEnd(s, k + 1);
      Some(Match(s[p..k], s[k + 1..e], e))
    else
      None
  }

  /** `MatchAt` finds a match exactly when the regular expression has one at
      `p`, and then the greedy one: the key up to the first character of
      `&=`, which must be `=`, and the value up to the next `&`. */
  lemma MatchAtIsRegexMatch(s: string, p: nat, k: nat, e: nat)
    requires p <= |s|
    ensures MatchAt(s, p) == Some(Match(s[p..k], s[k + 1..e], e)) <== RegexMatch(s, p, k, e)
    ensures MatchAt(s, p).Some? ==>
              var m := MatchAt(s, p).value;
              RegexMatch(s, p, KeyEnd(s, p), m.end)
              && m.key == s[p..KeyEnd(s, p)] && m.value == s[KeyEnd(s, p) + 1..m.end]
  {
    if RegexMatch(s, p, k, e) {
      KeyEndIs(s, p, k);
      ValueEndIs(s, k + 1, e);
    }
  }

  /** `regex.exec(queryString)` with `lastIndex == from`: the leftmost match
      starting at or after `from`. */
  function Exec(s: string, from: nat): (m: Option<Match>)
    requires from <= |s|
    ensures m.Some? ==> from < m.value.end <= |s|
    decreases |s| - from
  {
    if from == |s| then None
    else
      match MatchAt(s, from)
      case Some(m) => Some(m)
      case None => Exec(s, from + 1)
  }

  /** The raw pairs the `while (match = regex.exec(...))` loop visits, in
      order, starting the search at `from`. */
  function Tokens(s: string, from: nat): (tokens: seq<Pair>)
    requires from <= |s|
    decreases |s| - from
  {
    match Exec(s, from)
    case None => []
    case Some(m) => [Pair(m.key, m.value)] + Tokens(s, m.end)
  }

  // ---------------------------------------------------------------------------
  // Shape of the raw pairs

  /** A raw key is a non-empty run of `[^&=]`; a raw value has no `&`. */
  predicate WellFormedPair(t: Pair)
  {
    && |t.key| > 0
    && (forall j :: 0 <= j < |t.key| ==> KeyChar(t.key[j]))
    && (forall j :: 0 <= j < |t.value| ==> ValueChar(t.value[j]))
  }

  lemma {:induction false} ExecWellFormed(s: string, from: nat)
    requires from <= |s|
    ensures Exec(s, from).Some? ==>
              var m := Exec(s, from).value;
              WellFormedPair(Pair(m.key, m.value))
    decreases |s| - from
  {
    if from < |s| && MatchAt(s, from).None? {
      ExecWellFormed(s, from + 1);
    }
  }

  /** Every pair the loop visits has a non-empty key free of `&` and `=`,
      and a value free of `&` (a value may contain `=`). */
  lemma {:induction false} TokensWellFormed(s: string, from: nat)
    requires from <= |s|
    ensures forall i :: 0 <= i < |Tokens(s, from)| ==> WellFormedPair(Tokens(s, from)[i])
    decreases |s| - from
  {
    ExecWellFormed(s, from);
    match Exec(s, from)
    case None =>
    case Some(m) =>
      TokensWellFormed(s, m.end);
  }

  // ---------------------------------------------------------------------------
  // The same pairs, piece by piece

  /** Index of the first `c` in `s`, or `|s|` if there is none. */
  function IndexOf(s: string, c: char): (i: nat)
    ensures i <= |s|
    ensures i < |s| ==> s[i] == c
    ensures forall j :: 0 <= j < i ==> s[j] != c
    decreases |s|
  {
    if |s| == 0 then 0 else if s[0] == c then 0 else 1 + IndexOf(s[1..], c)
  }

  /** The first occurrence is determined by what comes before it. */
  lemma {:induction false} IndexOfIs(s: string, c: char, i: nat)
    requires i <= |s|
    requires forall j :: 0 <= j < i ==> s[j] != c
    requires i == |s| || s[i] == c
    ensures IndexOf(s, c) == i
    decreases |s|
  {
    if |s| > 0 && s[0] != c {
      IndexOfIs(s[1..], c, i - 1);
    }
  }

  /** `s.split('&')` */
  function SplitAmp(s: string): (pieces: seq<string>)
    ensures |pieces| >= 1
    decreases |s|
  {
    var j := IndexOf(s, '&');
    if j == |s| then [s] else [s[..j]] + SplitAmp(s[j + 1..])
  }

  /** What one `&`-separated piece contributes: leading `=` signs are
      skipped; what is left gives a pair if it contains `=`, split at its
      first `=`, and nothing otherwise. */
  function PieceToken(piece: string): (t: Option<Pair>)
    decreases |piece|
  {
    if |piece| == 0 then None
    else if piece[0] == '=' then PieceToken(piece[1..])
    else
      var k := IndexOf(piece, '=');
      if k < |piece| then Some(Pair(piece[..k], piece[k + 1..])) else None
  }

  function OptionToSeq(t: Option<Pair>): seq<Pair>
  {
    if t.Some? then [t.value] else []
  }

  function PairsOfPieces(pieces: seq<string>): (pairs: seq<Pair>)
    decreases |pieces|
  {
    if |pieces| == 0 then [] else OptionToSeq(PieceToken(pieces[0])) + PairsOfPieces(pieces[1..])
  }

  /** No match starts inside a run of `[^&=]` that is not followed by `=`:
      the search jumps over it. */
  lemma {:induction false} ExecSkipsRun(s: string, i: nat, j: nat)
    requires i <= j <= |s|
    requires forall t :: i <= t < j ==> KeyChar(s[t])
    requires j == |s| || s[j] == '&'
    ensures Exec(s, i) == Exec(s, j)
    decreases j - i
  {
    if i < j {
      KeyEndIs(s, i, j);
      assert MatchAt(s, i).None?;
      ExecSkipsRun(s, i + 1, j);
    }
  }

  /** A position holding `&` or `=` starts no match. */
  lemma ExecSkipsSeparator(s: string, i: nat)
    requires i < |s| && !KeyChar(s[i])
    ensures Exec(s, i) == Exec(s, i + 1)
    ensures Tokens(s, i) == Tokens(s, i + 1)
  {
    assert KeyEnd(s, i) == i;
  }

  /** Where the regular expression matches, the loop visits that match and
      resumes after it. */
  lemma TokensAtMatch(s: string, i: nat, k: nat, e: nat)
    requires RegexMatch(s, i, k, e)
    ensures Tokens(s, i) == [Pair(s[i..k], s[k + 1..e])] + Tokens(s, e)
  {
    MatchAtIsRegexMatch(s, i, k, e);
    assert Exec(s, i) == Some(Match(s[i..k], s[k + 1..e], e));
  }

  lemma PieceLeadingEquals(s: string, i: nat, j: nat)
    requires i < j <= |s| && s[i] == '='
    ensures PieceToken(s[i..j]) == PieceToken(s[i + 1..j])
    ensures Tokens(s, i) == Tokens(s, i + 1)
  {
    assert s[i..j][1..] == s[i + 1..j];
    ExecSkipsSeparator(s, i);
  }

  lemma PieceWithoutEquals(s: string, i: nat, j: nat)
    requires i < j <= |s|
    requires forall t :: i <= t < j ==> KeyChar(s[t])
    requires j == |s| || s[j] == '&'
    ensures PieceToken(s[i..j]) == None
    ensures Tokens(s, i) == Tokens(s, j)
  {
    var piece := s[i..j];
    assert piece[0] == s[i];
    IndexOfIs(piece, '=', |piece|);
    ExecSkipsRun(s, i, j);
  }

  lemma PieceWithEquals(s: string, i: nat, k: nat, j: nat)
    requires RegexMatch(s, i, k, j)
    ensures PieceToken(s[i..j]) == Some(Pair(s[i..k], s[k + 1..j]))
    ensures Tokens(s, i) == [Pair(s[i..k], s[k + 1..j])] + Tokens(s, j)
  {
    var piece := s[i..j];
    assert piece[0] == s[i];
    IndexOfIs(piece, '=', k - i);
    assert piece[..k - i] == s[i..k];
    assert piece[k - i + 1..] == s[k + 1..j];
    TokensAtMatch(s, i, k, j);
  }

  /** Within one `&`-free piece `s[i..j]` the search yields exactly the
      piece's own pair, if any, and then carries on at the piece's end. */
  lemma {:induction false} PieceTokens(s: string, i: nat, j: nat)
    requires i <= j <= |s|
    requires forall t :: i <= t < j ==> s[t] != '&'
    requires j == |s| || s[j] == '&'
    ensures Tokens(s, i) == OptionToSeq(PieceToken(s[i..j])) + Tokens(s, j)
    decreases j - i
  {
    if i == j {
      assert s[i..j] == [];
    } else if s[i] == '=' {
      PieceLeadingEquals(s, i, j);
      PieceTokens(s, i + 1, j);
    } else {
      var k := KeyEnd(s, i);
      if k >= j {
        PieceWithoutEquals(s, i, j);
      } else {
        PieceWithEquals(s, i, k, j);
      }
    }
  }

  /** Text without `&` is a single piece. */
  lemma SplitAmpLast(s: string)
    requires IndexOf(s, '&') == |s|
    ensures PairsOfPieces(SplitAmp(s)) == OptionToSeq(PieceToken(s))
  {
    assert SplitAmp(s) == [s];
    assert PairsOfPieces([s]) == OptionToSeq(PieceToken(s)) + PairsOfPieces([]);
  }

  /** `SplitAmp` peels off the text before the first `&`. */
  lemma SplitAmpCons(s: string, j: nat)
    requires j == IndexOf(s, '&') && j < |s|
    ensures PairsOfPieces(SplitAmp(s)) == OptionToSeq(PieceToken(s[..j])) + PairsOfPieces(SplitAmp(s[j + 1..]))
  {
    var pieces := SplitAmp(s);
    assert pieces == [s[..j]] + SplitAmp(s[j + 1..]);
    assert pieces[0] == s[..j];
    assert pieces[1..] == SplitAmp(s[j + 1..]);
  }

  /** The piece starting at `i` runs to the next `&` or the end. */
  lemma PieceEnd(s: string, i: nat)
    requires i <= |s|
    ensures var j := i + IndexOf(s[i..], '&');
            && i <= j <= |s|
            && (forall t :: i <= t < j ==> s[t] != '&')
            && (j == |s| || s[j] == '&')
  {
    var rest := s[i..];
    var n := IndexOf(rest, '&');
    forall t | i <= t < i + n
      ensures s[t] != '&'
    {
      assert s[t] == rest[t - i];
    }
  }

  /** The search over the piece at `i`, ending at the `&` at `j`, and then
      past that `&`. */
  lemma TokensOverPiece(s: string, i: nat, j: nat)
    requires i <= j <= |s|
    requires forall t :: i <= t < j ==> s[t] != '&'
    requires j == |s| || s[j] == '&'
    ensures j == |s| ==> Tokens(s, i) == OptionToSeq(PieceToken(s[i..j]))
    ensures j < |s| ==> Tokens(s, i) == OptionToSeq(PieceToken(s[i..j])) + Tokens(s, j + 1)
  {
    PieceTokens(s, i, j);
    if j == |s| {
      assert Tokens(s, j) == [];
    } else {
      ExecSkipsSeparator(s, j);
    }
  }

  /** The split over the text from `i`, whose first `&` is at `j`. */
  lemma SplitOverPiece(s: string, i: nat, j: nat)
    requires i <= j <= |s|
    requires j - i == IndexOf(s[i..], '&')
    ensures j == |s| ==> PairsOfPieces(SplitAmp(s[i..])) == OptionToSeq(PieceToken(s[i..j]))
    ensures j < |s| ==> PairsOfPieces(SplitAmp(s[i..]))
                        == OptionToSeq(PieceToken(s[i..j])) + PairsOfPieces(SplitAmp(s[j + 1..]))
  {
    var rest := s[i..];
    if j == |s| {
      SplitAmpLast(rest);
      assert rest == s[i..j];
    } else {
      SplitAmpCons(rest, j - i);
      assert rest[..j - i] == s[i..j];
      assert rest[j - i + 1..] == s[j + 1..];
    }
  }

  lemma {:induction false} TokensFromPieceStart(s: string, i: nat)
    requires i <= |s|
    ensures Tokens(s, i) == PairsOfPieces(SplitAmp(s[i..]))
    decreases |s| - i
  {
    var j := i + IndexOf(s[i..], '&');
    PieceEnd(s, i);
    TokensOverPiece(s, i, j);
    SplitOverPiece(s, i, j);
    if j < |s| {
      TokensFromPieceStart(s, j + 1);
    }
  }

  /** The regular expression's pairs are exactly one pair per `&`-separated
      piece that contains, after its leading `=` signs, an `=`: so a piece
      without `=` contributes nothing and the scan continues with the next
      piece; a piece like `=x=y` still gives `x` and `y`; only the first `=`
      after a key splits it, later ones belong to the value. */
  lemma TokensBySplit(s: string)
    ensures Tokens(s, 0) == PairsOfPieces(SplitAmp(s))
  {
    TokensFromPieceStart(s, 0);
    assert s[0..] == s;
  }

  // ---------------------------------------------------------------------------
  // Storing the pairs

  /** `params[decode(key)] = decode(value)` for each pair in turn, from the
      given object; `None` when a decode throws, which ends the function. */
  function Assign(params: map<string, string>, pairs: seq<Pair>, decode: string -> Option<string>)
    : (r: Option<map<string, string>>)
    decreases |pairs|
  {
    if |pairs| == 0 then Some(params)
    else
      match (decode(pairs[0].key), decode(pairs[0].value))
      case (Some(k), Some(v)) => Assign(params[k := v], pairs[1..], decode)
      case _ => None
  }

  /** What `getQueryParams` returns for a search string. */
  function QueryParams(search: string, decode: string -> Option<string>): (r: Option<map<string, string>>)
  {
    var q := DropFirst(search);
    Assign(map[], Tokens(q, 0), decode)
  }

  predicate Decodes(decode: string -> Option<string>, t: Pair)
  {
    decode(t.key).Some? && decode(t.value).Some?
  }

  /** The decoded value of the LAST pair whose key decodes to `key`, if
      there is one: a reference read from the end of the list. */
  function LastValue(pairs: seq<Pair>, decode: string -> Option<string>, key: string): (v: Option<string>)
    decreases |pairs|
  {
    if |pairs| == 0 then None
    else if decode(pairs[|pairs| - 1].key) == Some(key) then decode(pairs[|pairs| - 1].value)
    else LastValue(pairs[..|pairs| - 1], decode, key)
  }

  lemma {:induction false} AssignSnoc(params: map<string, string>, pairs: seq<Pair>, t: Pair,
                                      decode: string -> Option<string>)
    ensures Assign(params, pairs + [t], decode)
         == match Assign(params, pairs, decode)
            case None => None
            case Some(m) =>
              if Decodes(decode, t) then Some(m[decode(t.key).value := decode(t.value).value]) else None
    decreases |pairs|
  {
    if |pairs| == 0 {
      assert pairs + [t] == [t];
    } else {
      assert (pairs + [t])[1..] == pairs[1..] + [t];
      match (decode(pairs[0].key), decode(pairs[0].value))
      case (Some(k), Some(v)) =>
        AssignSnoc(params[k := v], pairs[1..], t, decode);
      case _ =>
    }
  }

  /** Storing fails exactly when some key or value does not decode. */
  lemma {:induction false} AssignFailsIff(params: map<string, string>, pairs: seq<Pair>,
                                          decode: string -> Option<string>)
    ensures Assign(params, pairs, decode).None? <==> exists i :: 0 <= i < |pairs| && !Decodes(decode, pairs[i])
    decreases |pairs|
  {
    if |pairs| > 0 {
      match (decode(pairs[0].key), decode(pairs[0].value))
      case (Some(k), Some(v)) =>
        AssignFailsIff(params[k := v], pairs[1..], decode);
        if exists i :: 0 <= i < |pairs| && !Decodes(decode, pairs[i]) {
          var i :| 0 <= i < |pairs| && !Decodes(decode, pairs[i]);
          assert !Decodes(decode, pairs[1..][i - 1]);
        }
        if exists i :: 0 <= i < |pairs[1..]| && !Decodes(decode, pairs[1..][i]) {
          var i :| 0 <= i < |pairs[1..]| && !Decodes(decode, pairs[1..][i]);
          assert !Decodes(decode, pairs[i + 1]);
        }
      case _ =>
        assert !Decodes(decode, pairs[0]);
    }
  }

  /** When storing succeeds, each key holds the value of its last
      occurrence; a key that occurs nowhere keeps its earlier entry (or
      stays absent). */
  lemma {:induction false} LastOccurrenceWins(params: map<string, string>, pairs: seq<Pair>,
                                              decode: string -> Option<string>, key: string)
    requires Assign(params, pairs, decode).Some?
    ensures var r := Assign(params, pairs, decode).value;
            && (LastValue(pairs, decode, key).Some? ==> key in r && r[key] == LastValue(pairs, decode, key).value)
            && (LastValue(pairs, decode, key).None? ==> (key in r <==> key in params))
            && (LastValue(pairs, decode, key).None? && key in params ==> r[key] == params[key])
    decreases |pairs|
  {
    if |pairs| > 0 {
      var init := pairs[..|pairs| - 1];
      var t := pairs[|pairs| - 1];
      assert pairs == init + [t];
      AssignSnoc(params, init, t, decode);
      if Assign(params, init, decode).None? {
        assert false;
      }
      LastOccurrenceWins(params, init, decode, key);
    }
  }

  // ---------------------------------------------------------------------------
  // The scan

  lemma AssignCons(params: map<string, string>, t: Pair, rest: seq<Pair>, decode: string -> Option<string>)
    ensures Assign(params, [t] + rest, decode)
         == if Decodes(decode, t) then Assign(params[decode(t.key).value := decode(t.value).value], rest, decode)
            else None
  {
    assert ([t] + rest)[1..] == rest;
  }

  /** The scan's inner loop over a key: the end of the run of `[^&=]`. */
  method ScanKey(q: string, i: nat) returns (k: nat)
    requires i <= |q|
    ensures k == KeyEnd(q, i)
  {
    k := i;
    while k < |q| && KeyChar(q[k])
      invariant i <= k <= |q|
      invariant forall j :: i <= j < k ==> KeyChar(q[j])
      decreases |q| - k
    {
      k := k + 1;
    }
    KeyEndIs(q, i, k);
  }

  /** The scan's inner loop over a value: the end of the run of `[^&]`. */
  method ScanValue(q: string, p: nat) returns (e: nat)
    requires p <= |q|
    ensures e == ValueEnd(q, p)
  {
    e := p;
    while e < |q| && ValueChar(q[e])
      invariant p <= e <= |q|
      invariant forall j :: p <= j < e ==> ValueChar(q[j])
      decreases |q| - e
    {
      e := e + 1;
    }
    ValueEndIs(q, p, e);
  }

  /** `getQueryParams()`: one pass over the search string that skips `&`
      and `=`, and for every run of `[^&=]` either stores the pair it
      starts, when `=` follows it, or jumps past it. Returns `None` when a
      decode throws. */
  method GetQueryParams(search: string, decode: string -> Option<string>)
    returns (params: Option<map<string, string>>)
    ensures params == QueryParams(search, decode)
  {
    var q := DropFirst(search);
    var acc: map<string, string> := map[];
    var i := 0;
    while i < |q|
      invariant 0 <= i <= |q|
      invariant Assign(acc, Tokens(q, i), decode) == Assign(map[], Tokens(q, 0), decode)
      decreases |q| - i
    {
      if !KeyChar(q[i]) {
        ExecSkipsSeparator(q, i);
        i := i + 1;
      } else {
        var k := ScanKey(q, i);
        if k < |q| && q[k] == '=' {
          var e := ScanValue(q, k + 1);
          var t := Pair(q[i..k], q[k + 1..e]);
          TokensAtMatch(q, i, k, e);
          AssignCons(acc, t, Tokens(q, e), decode);
          var key := decode(t.key);
          var value := decode(t.value);
          if key.None? || value.None? {
            return None;
          }
          acc := acc[key.value := value.value];
          i := e;
        } else {
          ExecSkipsRun(q, i, k);
          i := k;
        }
      }
    }
    assert Tokens(q, i) == [];
    params := Some(acc);
  }

  // ---------------------------------------------------------------------------
  // Examples

  /** `k==v`: only the first `=` splits, so the value is `=v`. */
  lemma ExampleDoubleEquals()
    ensures Tokens("k==v", 0) == [Pair("k", "=v")]
  {
    var s := "k==v";
    TokensAtMatch(s, 0, 1, 4);
    assert s[0..1] == "k" && s[2..4] == "=v";
    assert Tokens(s, 4) == [];
  }

  /** `a&b=c`: the piece without `=` is passed over and the next pair is
      still found. */
  lemma ExamplePieceWithoutEquals()
    ensures Tokens("a&b=c", 0) == [Pair("b", "c")]
  {
    var s := "a&b=c";
    ExecSkipsRun(s, 0, 1);
    assert Tokens(s, 0) == Tokens(s, 1);
    ExecSkipsSeparator(s, 1);
    TokensAtMatch(s, 2, 3, 5);
    assert s[2..3] == "b" && s[4..5] == "c";
    assert Tokens(s, 5) == [];
  }

  /** `=x=y`: the leading `=` is skipped and `x=y` still matches. */
  lemma ExampleLeadingEquals()
    ensures Tokens("=x=y", 0) == [Pair("x", "y")]
  {
    var s := "=x=y";
    ExecSkipsSeparator(s, 0);
    TokensAtMatch(s, 1, 2, 4);
    assert s[1..2] == "x" && s[3..4] == "y";
    assert Tokens(s, 4) == [];
  }
}
