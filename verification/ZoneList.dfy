// The zone server's command line: the list of zone ids it hosts, the suffix of its log file and
// the node number its ids carry.
module ZoneList {
  import opened Options
  import opened ZoneGrid

  const ULONG_LIMIT: nat := 0x1_0000_0000  // MSVC's unsigned long has 32 bits

  // ---- std::getline with a delimiter, until the stream is exhausted. ----

  function IndexOf(s: string, c: char): (i: nat)
    ensures i <= |s| && c !in s[..i] && (i < |s| ==> s[i] == c)
  {
    if s == "" || s[0] == c then 0 else 1 + IndexOf(s[1..], c)
  }

  function Tokens(s: string, delim: char): seq<string>
    decreases |s|
  {
    if s == "" then []
    else
      var i := IndexOf(s, delim);
      [s[..i]] + if i < |s| then Tokens(s[i + 1..], delim) else []
  }

  // ---- Decimal numbers. ----

  predicate IsDigit(c: char) { '0' <= c <= '9' }

  predicate AllDigits(s: string) { forall i :: 0 <= i < |s| ==> IsDigit(s[i]) }

  function DigitValue(c: char): nat
    requires IsDigit(c)
  {
    c as int - '0' as int
  }

  function Number(s: string): nat
    requires AllDigits(s)
  {
    if s == "" then 0 else Number(s[..|s| - 1]) * 10 + DigitValue(s[|s| - 1])
  }

  // std::to_string.
  function Decimal(n: nat): (s: string)
    ensures s != "" && AllDigits(s)
  {
    var digit := ('0' as int + n % 10) as char;
    if n < 10 then [digit] else Decimal(n / 10) + [digit]
  }

  lemma {:induction false} NumberOfDecimal(n: nat)
    ensures Number(Decimal(n)) == n
  {
    var s := Decimal(n);
    if n >= 10 {
      NumberOfDecimal(n / 10);
      assert s[..|s| - 1] == Decimal(n / 10);
    } else {
      assert s[..0] == "";
    }
  }

  // ---- std::stoul in base 10: blanks, an optional sign, digits, and anything after them. ----

  predicate IsSpace(c: char) {
    c == ' ' || '\t' as int <= c as int <= '\r' as int
  }

  function SkipSpace(s: string): string {
    if s != "" && IsSpace(s[0]) then SkipSpace(s[1..]) else s
  }

  function LeadingDigits(s: string): (d: string)
    ensures AllDigits(d) && d <= s
    ensures |d| < |s| ==> !IsDigit(s[|d|])
  {
    if s != "" && IsDigit(s[0]) then [s[0]] + LeadingDigits(s[1..]) else ""
  }

  // None is invalid_argument or out_of_range. A minus sign negates modulo 2^32.
  function Stoul(token: string): (r: Option<nat>)
    ensures r.Some? ==> r.value < ULONG_LIMIT
  {
    var s := SkipSpace(token);
    var signed := s != "" && (s[0] == '+' || s[0] == '-');
    var digits := LeadingDigits(if signed then s[1..] else s);
    if digits == "" || Number(digits) >= ULONG_LIMIT then None
    else if signed && s[0] == '-' then Some((ULONG_LIMIT - Number(digits)) % ULONG_LIMIT)
    else Some(Number(digits))
  }

  predicate AllSpace(s: string) { forall i :: 0 <= i < |s| ==> IsSpace(s[i]) }

  // What std::isspace takes for a blank: space, tab, line feed, vertical tab, form feed, return.
  lemma BlanksAre(c: char)
    ensures IsSpace(c) <==> c as int in {9, 10, 11, 12, 13, 32}
  {
  }

  // The text after the number does not continue it.
  predicate EndsNumber(rest: string) { rest == "" || !IsDigit(rest[0]) }

  predicate StartsNumber(c: char) { IsSpace(c) || c == '+' || c == '-' }

  lemma {:induction false} SpaceIsSkipped(blanks: string, rest: string)
    requires AllSpace(blanks) && (rest == "" || !IsSpace(rest[0]))
    ensures SkipSpace(blanks + rest) == rest
  {
    if blanks == "" {
      assert blanks + rest == rest;
    } else {
      SpaceIsSkipped(blanks[1..], rest);
      assert (blanks + rest)[1..] == blanks[1..] + rest;
    }
  }

  lemma {:induction false} DigitsAreTaken(digits: string, rest: string)
    requires AllDigits(digits) && EndsNumber(rest)
    ensures LeadingDigits(digits + rest) == digits
  {
    if digits == "" {
      assert digits + rest == rest;
    } else {
      DigitsAreTaken(digits[1..], rest);
      assert (digits + rest)[1..] == digits[1..] + rest;
    }
  }

  // Every token is blanks, a sign or none, digits and something else; it is read as the number the
  // digits stand for, negated modulo 2^32 after a minus sign, unless there are no digits or the number
  // takes more than 32 bits.
  lemma StoulReads(blanks: string, sign: string, digits: string, rest: string)
    requires AllSpace(blanks) && AllDigits(digits) && EndsNumber(rest) && sign in ["", "+", "-"]
    requires digits == "" && sign == "" && rest != "" ==> !StartsNumber(rest[0])
    ensures Stoul(blanks + sign + digits + rest) ==
            if digits == "" || Number(digits) >= ULONG_LIMIT then None
            else if sign == "-" then Some((ULONG_LIMIT - Number(digits)) % ULONG_LIMIT)
            else Some(Number(digits))
  {
    hide Number, SkipSpace, LeadingDigits;
    var s := sign + (digits + rest);
    assert blanks + sign + digits + rest == blanks + s;
    SpaceIsSkipped(blanks, s);
    DigitsAreTaken(digits, rest);
    if sign == "" {
      assert s == digits + rest;
    } else {
      assert s[0] == sign[0] && s[1..] == digits + rest;
    }
  }

  // A plain decimal number is read as its value.
  lemma StoulOfDecimal(n: nat)
    requires n < ULONG_LIMIT
    ensures Stoul(Decimal(n)) == Some(n)
  {
    hide Decimal, Number, LeadingDigits;
    var s := Decimal(n);
    assert IsDigit(s[0]) && SkipSpace(s) == s;
    DigitsLead(s);
    NumberOfDecimal(n);
  }

  lemma {:induction false} DigitsLead(s: string)
    requires AllDigits(s)
    ensures LeadingDigits(s) == s
  {
  }

  // ---- ParseZoneList. ----

  // The two vectors, or the token std::stoul threw on.
  datatype ParseResult = Parsed(zones: seq<ZoneDef>, rejected: seq<string>) | Threw(token: string)

  function IdOf(token: string): nat {
    if Stoul(token).Some? then Stoul(token).value else 0
  }

  predicate Accepts(g: Grid, token: string) {
    1 <= IdOf(token) <= g.zonesPerRow * g.rows
  }

  function NonEmpty(tokens: seq<string>): seq<string> {
    if tokens == [] then []
    else NonEmpty(tokens[..|tokens| - 1]) + if tokens[|tokens| - 1] == "" then [] else [tokens[|tokens| - 1]]
  }

  // The zone ids of the accepted tokens, in order.
  function AcceptedIds(g: Grid, tokens: seq<string>): (ids: seq<nat>)
    requires ValidGrid(g)
    ensures forall i :: 0 <= i < |ids| ==> OnGrid(g, ids[i])
  {
    if tokens == [] then []
    else
      var t := tokens[|tokens| - 1];
      AcceptedIds(g, tokens[..|tokens| - 1]) +
      if Accepts(g, t) then OnGridIffCounted(g, IdOf(t)); [IdOf(t)] else []
  }

  function RejectedTokens(g: Grid, tokens: seq<string>): seq<string> {
    if tokens == [] then []
    else
      var t := tokens[|tokens| - 1];
      RejectedTokens(g, tokens[..|tokens| - 1]) + if Accepts(g, t) then [] else [t]
  }

  function DefsOf(g: Grid, ids: seq<nat>): (defs: seq<ZoneDef>)
    requires ValidGrid(g) && forall i :: 0 <= i < |ids| ==> OnGrid(g, ids[i])
    ensures |defs| == |ids|
  {
    seq(|ids|, i requires 0 <= i < |ids| => DefOf(g, ids[i]))
  }

  // One token of the loop: a null id and an id off the grid are rejected, the rest become zones.
  method ParseToken(g: Grid, token: string, zones: seq<ZoneDef>, rejected: seq<string>)
    returns (zones': seq<ZoneDef>, rejected': seq<string>)
    requires ValidGrid(g) && Stoul(token).Some?
    ensures Accepts(g, token) ==>
              OnGrid(g, IdOf(token)) && zones' == zones + [DefOf(g, IdOf(token))] && rejected' == rejected
    ensures !Accepts(g, token) ==> zones' == zones && rejected' == rejected + [token]
  {
    zones', rejected' := zones, rejected;
    var zoneId := Stoul(token).value;
    OnGridIffCounted(g, zoneId);
    if zoneId == 0 {
      rejected' := rejected + [token];
      return;
    }
    var index := zoneId - 1;
    var column := index % g.zonesPerRow;
    var row := index / g.zonesPerRow;
    if row >= g.rows {
      rejected' := rejected + [token];
      return;
    }
    var xMin := Edge(column, g.size);
    var yMax := Edge(g.rows - row, g.size);
    zones' := zones + [ZoneDef(zoneId, xMin, xMin + g.size, yMax - g.size, yMax)];
  }

  // What the loop has built after some tokens.
  ghost predicate Built(g: Grid, tokens: seq<string>, zones: seq<ZoneDef>, rejected: seq<string>)
    requires ValidGrid(g)
  {
    && (forall t :: t in NonEmpty(tokens) ==> Stoul(t).Some?)
    && zones == DefsOf(g, AcceptedIds(g, NonEmpty(tokens)))
    && rejected == RejectedTokens(g, NonEmpty(tokens))
  }

  lemma NonEmptyMore(tokens: seq<string>, token: string)
    ensures NonEmpty(tokens + [token]) == NonEmpty(tokens) + if token == "" then [] else [token]
  {
  }

  lemma AcceptMore(g: Grid, tokens: seq<string>, token: string)
    requires ValidGrid(g) && Accepts(g, token) && OnGrid(g, IdOf(token))
    ensures DefsOf(g, AcceptedIds(g, tokens + [token])) == DefsOf(g, AcceptedIds(g, tokens)) + [DefOf(g, IdOf(token))]
    ensures RejectedTokens(g, tokens + [token]) == RejectedTokens(g, tokens)
  {
    hide DefOf, Accepts, OnGrid, IdOf;
    assert (tokens + [token])[..|tokens|] == tokens;
    assert AcceptedIds(g, tokens + [token]) == AcceptedIds(g, tokens) + [IdOf(token)];
  }

  lemma RejectMore(g: Grid, tokens: seq<string>, token: string)
    requires ValidGrid(g) && !Accepts(g, token)
    ensures AcceptedIds(g, tokens + [token]) == AcceptedIds(g, tokens)
    ensures RejectedTokens(g, tokens + [token]) == RejectedTokens(g, tokens) + [token]
  {
  }

  lemma BuiltMore(g: Grid, tokens: seq<string>, zones: seq<ZoneDef>, rejected: seq<string>, token: string)
    requires ValidGrid(g) && Built(g, tokens, zones, rejected)
    ensures token == "" ==> Built(g, tokens + [token], zones, rejected)
    ensures token != "" && Stoul(token).Some? && Accepts(g, token) && OnGrid(g, IdOf(token)) ==>
              Built(g, tokens + [token], zones + [DefOf(g, IdOf(token))], rejected)
    ensures token != "" && Stoul(token).Some? && !Accepts(g, token) ==>
              Built(g, tokens + [token], zones, rejected + [token])
  {
    hide DefOf, Accepts, Stoul, OnGrid, IdOf, AcceptedIds, RejectedTokens, NonEmpty, DefsOf;
    NonEmptyMore(tokens, token);
    if token == "" {
      assert NonEmpty(tokens) + [] == NonEmpty(tokens);
    } else if Accepts(g, token) && OnGrid(g, IdOf(token)) {
      AcceptMore(g, NonEmpty(tokens), token);
    } else if !Accepts(g, token) {
      RejectMore(g, NonEmpty(tokens), token);
    }
  }

  // What parsing a command line gives: the zones and the rejected tokens of its tokens, unless some
  // token is not a number.
  ghost predicate ParsedAs(g: Grid, arg: string, r: ParseResult)
    requires ValidGrid(g)
  {
    var tokens := Tokens(arg, ',');
    if r.Threw? then r.token in NonEmpty(tokens) && Stoul(r.token).None?
    else Built(g, tokens, r.zones, r.rejected)
  }

  method ParseZoneList(g: Grid, arg: string) returns (r: ParseResult)
    requires ValidGrid(g)
    ensures ParsedAs(g, arg, r)
  {
    hide DefOf, Accepts, Stoul, OnGrid, Built, NonEmpty, AcceptedIds, RejectedTokens, DefsOf, IdOf;
    var rest, zones, rejected := arg, [], [];
    ghost var seen: seq<string> := [];
    NothingBuilt(g);
    while rest != ""
      invariant Tokens(arg, ',') == seen + Tokens(rest, ',')
      invariant Built(g, seen, zones, rejected)
      decreases |rest|
    {
      var i := IndexOf(rest, ',');
      var token := rest[..i];
      rest := if i < |rest| then rest[i + 1..] else "";
      BuiltMore(g, seen, zones, rejected, token);
      seen := seen + [token];
      assert Tokens(arg, ',') == seen + Tokens(rest, ',');
      if token == "" {
        continue;
      }
      if Stoul(token).None? {
        LastIsNonEmpty(seen, token);
        NonEmptyKeeps(seen, Tokens(rest, ','), token);
        return Threw(token);
      }
      zones, rejected := ParseToken(g, token, zones, rejected);
    }
    assert seen + [] == seen;
    return Parsed(zones, rejected);
  }

  lemma NothingBuilt(g: Grid)
    requires ValidGrid(g)
    ensures Built(g, [], [], [])
  {
  }

  lemma LastIsNonEmpty(tokens: seq<string>, t: string)
    requires tokens != [] && tokens[|tokens| - 1] == t && t != ""
    ensures t in NonEmpty(tokens)
  {
  }

  lemma {:induction false} NonEmptyKeeps(a: seq<string>, b: seq<string>, t: string)
    requires t in NonEmpty(a)
    ensures t in NonEmpty(a + b)
    decreases |b|
  {
    if b == [] {
      assert a + b == a;
    } else {
      NonEmptyKeeps(a, b[..|b| - 1], t);
      assert (a + b)[..|a + b| - 1] == a + b[..|b| - 1];
    }
  }

  // Accepted and rejected tokens are complementary filters: each token that names a zone of the grid
  // goes to the one list and each other token to the other, at the place given by how many before it
  // went there.
  lemma {:induction false} ParsingPartitions(g: Grid, tokens: seq<string>)
    requires ValidGrid(g)
    ensures |AcceptedIds(g, tokens)| + |RejectedTokens(g, tokens)| == |tokens|
    ensures forall i :: 0 <= i < |tokens| ==> Filed(g, tokens, i)
    decreases |tokens|
  {
    hide Accepts, IdOf, OnGrid;
    if tokens != [] {
      var n := |tokens| - 1;
      ParsingPartitions(g, tokens[..n]);
      forall i | 0 <= i < |tokens|
        ensures Filed(g, tokens, i)
      {
        AcceptsIffOnGrid(g, tokens[i]);
        if i < n {
          assert Filed(g, tokens[..n], i);
          assert tokens[..n][..i] == tokens[..i] && tokens[..n][i] == tokens[i];
        }
      }
    }
  }

  lemma AcceptsIffOnGrid(g: Grid, token: string)
    requires ValidGrid(g)
    ensures Accepts(g, token) <==> OnGrid(g, IdOf(token))
  {
    OnGridIffCounted(g, IdOf(token));
  }

  ghost predicate Filed(g: Grid, tokens: seq<string>, i: nat)
    requires ValidGrid(g) && i < |tokens|
  {
    var accepted, rejected := AcceptedIds(g, tokens), RejectedTokens(g, tokens);
    if OnGrid(g, IdOf(tokens[i])) then
      var k := |AcceptedIds(g, tokens[..i])|; k < |accepted| && accepted[k] == IdOf(tokens[i])
    else
      var k := |RejectedTokens(g, tokens[..i])|; k < |rejected| && rejected[k] == tokens[i]
  }

  lemma {:induction false} RejectedAreOffGrid(g: Grid, tokens: seq<string>)
    requires ValidGrid(g)
    ensures forall t :: t in RejectedTokens(g, tokens) ==> t in tokens && !OnGrid(g, IdOf(t))
    decreases |tokens|
  {
    hide Accepts, IdOf, OnGrid;
    if tokens != [] {
      var n := |tokens| - 1;
      RejectedAreOffGrid(g, tokens[..n]);
      AcceptsIffOnGrid(g, tokens[n]);
      assert tokens == tokens[..n] + [tokens[n]];
    }
  }

  // A token of a list that parses is rejected if and only if its number is not that of a zone on the
  // grid; 0 never is.
  lemma RejectedIffOffGrid(g: Grid, arg: string, r: ParseResult, token: string)
    requires ValidGrid(g) && ParsedAs(g, arg, r) && r.Parsed? && token in NonEmpty(Tokens(arg, ','))
    ensures Stoul(token).Some?
    ensures token in r.rejected <==> !OnGrid(g, Stoul(token).value)
    ensures Stoul(token).value == 0 ==> token in r.rejected
  {
    hide AcceptedIds, RejectedTokens, NonEmpty, Tokens, Stoul, DefsOf;
    var tokens := NonEmpty(Tokens(arg, ','));
    ParsingPartitions(g, tokens);
    RejectedAreOffGrid(g, tokens);
    var i :| 0 <= i < |tokens| && tokens[i] == token;
    assert Filed(g, tokens, i);
  }

  lemma {:induction false} DecimalsAreNonEmpty(ids: seq<nat>)
    ensures NonEmpty(Decimals(ids)) == Decimals(ids)
    decreases |ids|
  {
    hide Decimal;
    if ids != [] {
      var n := |ids| - 1;
      DecimalsAreNonEmpty(ids[..n]);
      assert Decimals(ids)[..n] == Decimals(ids[..n]);
    }
  }

  lemma ZoneIsAccepted(g: Grid, id: nat)
    requires ValidGrid(g) && OnGrid(g, id) && id < ULONG_LIMIT
    ensures Accepts(g, Decimal(id)) && IdOf(Decimal(id)) == id
  {
    StoulOfDecimal(id);
    AcceptsIffOnGrid(g, Decimal(id));
  }

  lemma {:induction false} DecimalsAreAccepted(g: Grid, ids: seq<nat>)
    requires ValidGrid(g) && forall i :: 0 <= i < |ids| ==> OnGrid(g, ids[i]) && ids[i] < ULONG_LIMIT
    ensures AcceptedIds(g, Decimals(ids)) == ids && RejectedTokens(g, Decimals(ids)) == []
    decreases |ids|
  {
    hide Decimal, OnGrid, Accepts, IdOf, Decimals;
    if ids != [] {
      var n := |ids| - 1;
      DecimalsAreAccepted(g, ids[..n]);
      ZoneIsAccepted(g, ids[n]);
      assert Decimals(ids)[..n] == Decimals(ids[..n]);
      assert ids == ids[..n] + [ids[n]];
    } else {
      assert Decimals(ids) == [];
    }
  }

  // A comma-separated list of zones of the grid is accepted whole and in order.
  lemma ListOfZonesParses(g: Grid, ids: seq<nat>, r: ParseResult)
    requires ValidGrid(g) && forall i :: 0 <= i < |ids| ==> OnGrid(g, ids[i]) && ids[i] < ULONG_LIMIT
    requires ParsedAs(g, Joined(ids, ','), r)
    ensures r == Parsed(DefsOf(g, ids), [])
    ensures IdsOf(r.zones) == ids
  {
    hide Decimal, Joined, Tokens, NonEmpty, AcceptedIds, RejectedTokens, DefsOf, OnGrid;
    if ids == [] {
      NothingJoined(',');
    } else {
      JoinedSplits(ids, ',');
    }
    DecimalsAreNonEmpty(ids);
    DecimalsAreAccepted(g, ids);
    if r.Threw? {
      var k :| 0 <= k < |ids| && Decimals(ids)[k] == r.token;
      StoulOfDecimal(ids[k]);
    }
    IdsOfDefs(g, ids);
  }

  lemma NothingJoined(sep: char)
    ensures Tokens(Joined([], sep), sep) == [] && Decimals([]) == []
  {
  }

  // ---- The log file suffix. ----

  // Decimal ids with a separator between them.
  function Joined(ids: seq<nat>, sep: char): string {
    if ids == [] then ""
    else
      var n := |ids| - 1;
      Joined(ids[..n], sep) + (if n == 0 then "" else [sep]) + Decimal(ids[n])
  }

  function Suffix(ids: seq<nat>): string {
    if ids == [] then "none" else Joined(ids, '_')
  }

  function IdsOf(zones: seq<ZoneDef>): (ids: seq<nat>)
    ensures |ids| == |zones| && forall i :: 0 <= i < |ids| ==> ids[i] == zones[i].zoneId
  {
    seq(|zones|, i requires 0 <= i < |zones| => zones[i].zoneId)
  }

  // The ids of the zones built for some ids are those ids.
  lemma IdsOfDefs(g: Grid, ids: seq<nat>)
    requires ValidGrid(g) && forall i :: 0 <= i < |ids| ==> OnGrid(g, ids[i])
    ensures IdsOf(DefsOf(g, ids)) == ids
  {
  }

  method ZoneIdSuffix(zones: seq<ZoneDef>) returns (suffix: string)
    ensures suffix == Suffix(IdsOf(zones))
  {
    ghost var ids := IdsOf(zones);
    suffix := "";
    for i := 0 to |zones|
      invariant suffix == Joined(ids[..i], '_') && (i > 0 ==> suffix != "")
    {
      if suffix != "" {
        suffix := suffix + "_";
      }
      suffix := suffix + Decimal(zones[i].zoneId);
      assert ids[..i + 1][..i] == ids[..i];
    }
    assert ids[..|zones|] == ids;
    if suffix == "" {
      suffix := "none";
    }
  }

  lemma {:induction false} JoinedFromFront(ids: seq<nat>, sep: char)
    requires |ids| > 1
    ensures Joined(ids, sep) == Decimal(ids[0]) + [sep] + Joined(ids[1..], sep)
    decreases |ids|
  {
    hide Decimal;
    var n := |ids| - 1;
    var front := ids[..n];
    assert ids[1..][..n - 1] == front[1..];
    if n == 1 {
      assert front[..0] == [] && Joined(front, sep) == Decimal(ids[0]);
      assert ids[1..][..0] == [] && Joined(ids[1..], sep) == Decimal(ids[1]);
    } else {
      JoinedFromFront(front, sep);
      assert Joined(ids[1..], sep) == Joined(front[1..], sep) + [sep] + Decimal(ids[n]);
    }
  }

  lemma {:induction false} IndexOfFirst(d: string, rest: string, c: char)
    requires c !in d && (rest == "" || rest[0] == c)
    ensures IndexOf(d + rest, c) == |d|
  {
    if d == "" {
      assert d + rest == rest;
    } else {
      IndexOfFirst(d[1..], rest, c);
      assert (d + rest)[1..] == d[1..] + rest;
    }
  }

  lemma OnlyDigits(n: nat, c: char)
    requires !IsDigit(c)
    ensures c !in Decimal(n)
  {
  }

  lemma TokensStep(d: string, rest: string, c: char)
    requires c !in d && d != ""
    ensures Tokens(d, c) == [d]
    ensures Tokens(d + [c] + rest, c) == [d] + Tokens(rest, c)
  {
    hide IndexOf;
    IndexOfFirst(d, "", c);
    IndexOfFirst(d, [c] + rest, c);
    var s := d + [c] + rest;
    assert d + "" == d && s == d + ([c] + rest);
    assert s[..|d|] == d && s[|d| + 1..] == rest;
  }

  function Decimals(ids: seq<nat>): (ds: seq<string>)
    ensures |ds| == |ids| && forall i :: 0 <= i < |ids| ==> ds[i] == Decimal(ids[i])
  {
    if ids == [] then [] else [Decimal(ids[0])] + Decimals(ids[1..])
  }

  // Splitting at the separator gives back the decimal ids.
  lemma {:induction false} JoinedSplits(ids: seq<nat>, sep: char)
    requires ids != [] && !IsDigit(sep)
    ensures Tokens(Joined(ids, sep), sep) == Decimals(ids)
    decreases |ids|
  {
    hide Decimal, Joined, Tokens, IsDigit;
    OnlyDigits(ids[0], sep);
    if |ids| == 1 {
      JoinedOne(ids, sep);
      TokensStep(Decimal(ids[0]), "", sep);
    } else {
      JoinedFromFront(ids, sep);
      JoinedSplits(ids[1..], sep);
      TokensStep(Decimal(ids[0]), Joined(ids[1..], sep), sep);
    }
  }

  lemma JoinedOne(ids: seq<nat>, sep: char)
    requires |ids| == 1
    ensures Joined(ids, sep) == Decimal(ids[0])
  {
  }

  lemma JoinedStartsWithDigit(ids: seq<nat>, sep: char)
    requires ids != []
    ensures Joined(ids, sep) != "" && IsDigit(Joined(ids, sep)[0])
  {
  }

  // Two processes with different zone lists never share a log file.
  lemma SuffixIsInjective(a: seq<nat>, b: seq<nat>)
    requires Suffix(a) == Suffix(b)
    ensures a == b
  {
    hide Decimal, Joined, Tokens;
    if a != [] { JoinedStartsWithDigit(a, '_'); }
    if b != [] { JoinedStartsWithDigit(b, '_'); }
    if a != [] && b != [] {
      JoinedSplits(a, '_');
      JoinedSplits(b, '_');
      var ts := Tokens(Joined(a, '_'), '_');
      forall i | 0 <= i < |a|
        ensures a[i] == b[i]
      {
        assert ts[i] == Decimal(a[i]) == Decimal(b[i]);
        NumberOfDecimal(a[i]);
        NumberOfDecimal(b[i]);
      }
    }
  }

  // ---- The node number. ----

  const NODE_ZONE_BEGIN: nat := 100

  // The smallest id hosted, which is one of them.
  predicate IsMin(ids: seq<nat>, min: nat) {
    min in ids && forall id :: id in ids ==> min <= id
  }

  method MinZoneId(zones: seq<ZoneDef>) returns (min: nat)
    requires zones != []
    ensures IsMin(IdsOf(zones), min)
  {
    ghost var ids := IdsOf(zones);
    min := zones[0].zoneId;
    assert ids[0] == min;
    for i := 0 to |zones|
      invariant min in ids
      invariant forall k :: 0 <= k < i ==> min <= ids[k]
    {
      assert ids[i] == zones[i].zoneId;
      min := if zones[i].zoneId < min then zones[i].zoneId else min;
    }
  }

  // Processes that host disjoint zones, all of them on the grid, get different node numbers, above
  // the world servers' band; on the 2 x 2 grid they stay in the zone servers' band 100-199.
  lemma DisjointZonesDistinctNodes(g: Grid, a: seq<nat>, b: seq<nat>, minA: nat, minB: nat)
    requires ValidGrid(g) && IsMin(a, minA) && IsMin(b, minB)
    requires forall i :: 0 <= i < |a| ==> OnGrid(g, a[i])
    requires forall x :: x in a ==> x !in b
    ensures NODE_ZONE_BEGIN + minA != NODE_ZONE_BEGIN + minB
    ensures NODE_ZONE_BEGIN < NODE_ZONE_BEGIN + minA <= NODE_ZONE_BEGIN + g.zonesPerRow * g.rows
  {
    var i :| 0 <= i < |a| && a[i] == minA;
    OnGridIffCounted(g, a[i]);
  }
}
