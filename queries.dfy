/**
 * The query of a thread-posts request and its normalisation from the four
 * raw request parameters `limit`, `since`, `desc` and `sort`.
 */
module Queries {
  import opened Wrappers

  /** The three traversal orders; any other `sort` value means flat. */
  datatype Mode = Flat | Tree | ParentTree

  /** A normalised request: `limit` None is unbounded, `since` None is no cursor. */
  datatype Query = Query(mode: Mode, limit: Option<nat>, since: Option<int>, desc: bool)

  /** A parameter the database cannot read as an integer, so the statement fails. */
  datatype ParamError = BadLimit | BadSince

  predicate IsDigit(c: char)
  {
    '0' <= c <= '9'
  }

  predicate AllDigits(s: string)
  {
    forall i :: 0 <= i < |s| ==> IsDigit(s[i])
  }

  function DigitsValue(s: string): nat
    requires AllDigits(s)
    decreases |s|
  {
    if s == [] then 0 else 10 * DigitsValue(s[..|s| - 1]) + (s[|s| - 1] as int - '0' as int)
  }

  /** How the database reads a non-negative integer parameter written in decimal. */
  function ParseNat(s: string): (r: Option<nat>)
    ensures r.Some? <==> s != [] && AllDigits(s)
  {
    if s != [] && AllDigits(s) then Some(DigitsValue(s)) else None
  }

  /** How the database reads an integer parameter: an optional minus sign, then decimal digits. */
  function ParseInt(s: string): (r: Option<int>)
    ensures r.Some? <==> ParseNat(s).Some? || (s != [] && s[0] == '-' && ParseNat(s[1..]).Some?)
  {
    if s != [] && s[0] == '-' then
      match ParseNat(s[1..])
      case Some(n) => Some(0 - n as int)
      case None => None
    else
      match ParseNat(s)
      case Some(n) => Some(n)
      case None => None
  }

  /** Decimal text of a number, as a client writes a limit or a post id. */
  function Decimal(n: nat): string
    decreases n
  {
    if n < 10 then ['0' + n as char] else Decimal(n / 10) + ['0' + (n % 10) as char]
  }

  function SignedDecimal(x: int): string
  {
    if x < 0 then ['-'] + Decimal(-x) else Decimal(x)
  }

  lemma {:induction false} DecimalDigits(n: nat)
    ensures Decimal(n) != [] && AllDigits(Decimal(n)) && DigitsValue(Decimal(n)) == n
    decreases n
  {
    if n >= 10 {
      DecimalDigits(n / 10);
      var d := Decimal(n);
      assert d[..|d| - 1] == Decimal(n / 10);
    }
  }

  /** Reading back a limit written in decimal gives the same number. */
  lemma ParseNatDecimal(n: nat)
    ensures ParseNat(Decimal(n)) == Some(n)
  {
    DecimalDigits(n);
  }

  lemma ParseIntNegative(n: nat)
    requires n > 0
    ensures ParseInt(['-'] + Decimal(n)) == Some(0 - n as int)
  {
    var d := Decimal(n);
    DecimalDigits(n);
    assert (['-'] + d)[1..] == d;
  }

  lemma ParseIntNonNegative(n: nat)
    ensures ParseInt(Decimal(n)) == Some(n)
  {
    var d := Decimal(n);
    DecimalDigits(n);
    assert IsDigit(d[0]);
  }

  /** Reading back a post id written in decimal gives the same id. */
  lemma ParseIntDecimal(x: int)
    ensures ParseInt(SignedDecimal(x)) == Some(x)
  {
    if x < 0 {
      ParseIntNegative(-x);
    } else {
      ParseIntNonNegative(x);
    }
  }

  /** The mode a `sort` value selects; an unknown value falls back to flat. */
  function SortMode(sortVal: string): Mode
  {
    if sortVal == "tree" then Tree else if sortVal == "parent_tree" then ParentTree else Flat
  }

  /**
   * The query four raw parameters stand for: an empty parameter is absent,
   * `desc` holds only for the exact text "true", and a present `limit` or
   * `since` the database cannot read as an integer is an error.
   */
  function Parameters(limitVal: string, sinceVal: string, descVal: string, sortVal: string): Result<Query, ParamError>
  {
    if limitVal != "" && ParseNat(limitVal).None? then Err(BadLimit)
    else if sinceVal != "" && ParseInt(sinceVal).None? then Err(BadSince)
    else
      var limit := if limitVal == "" then None else ParseNat(limitVal);
      var since := if sinceVal == "" then None else ParseInt(sinceVal);
      Ok(Query(SortMode(sortVal), limit, since, descVal == "true"))
  }

  /**
   * What the parameters mean: an error exactly when a present integer
   * parameter is unreadable (the limit reported first); otherwise each
   * field of the query is decided by its own parameter.
   */
  lemma ParametersMeaning(limitVal: string, sinceVal: string, descVal: string, sortVal: string)
    ensures var r := Parameters(limitVal, sinceVal, descVal, sortVal);
      && (r.Err? <==> (limitVal != "" && ParseNat(limitVal).None?) || (sinceVal != "" && ParseInt(sinceVal).None?))
      && (r.Err? ==> (r.error == BadLimit <==> limitVal != "" && ParseNat(limitVal).None?))
      && (r.Ok? ==> (r.value.mode == Tree <==> sortVal == "tree"))
      && (r.Ok? ==> (r.value.mode == ParentTree <==> sortVal == "parent_tree"))
      && (r.Ok? ==> (r.value.desc <==> descVal == "true"))
      && (r.Ok? ==> (r.value.limit.None? <==> limitVal == ""))
      && (r.Ok? && limitVal != "" ==> ParseNat(limitVal) == Some(r.value.limit.value))
      && (r.Ok? ==> (r.value.since.None? <==> sinceVal == ""))
      && (r.Ok? && sinceVal != "" ==> ParseInt(sinceVal) == Some(r.value.since.value))
  {
  }

  /**
   * Parameter normalisation as the handler does it: the flags `limit`,
   * `since` and `desc`, the sort fallback, then the integer parameters as
   * the database reads them.
   */
  method Normalize(limitVal: string, sinceVal: string, descVal: string, sortVal: string)
    returns (r: Result<Query, ParamError>)
    ensures r == Parameters(limitVal, sinceVal, descVal, sortVal)
  {
    var since, desc, limit := false, false, false;
    if limitVal != "" {
      limit := true;
    }
    if sinceVal != "" {
      since := true;
    }
    if descVal == "true" {
      desc := true;
    }
    var sort := sortVal;
    if sort != "flat" && sort != "tree" && sort != "parent_tree" {
      sort := "flat";
    }
    var mode := if sort == "tree" then Tree else if sort == "parent_tree" then ParentTree else Flat;
    var lim: Option<nat> := None;
    if limit {
      match ParseNat(limitVal)
      case None => return Err(BadLimit);
      case Some(n) => lim := Some(n);
    }
    var cursor: Option<int> := None;
    if since {
      match ParseInt(sinceVal)
      case None => return Err(BadSince);
      case Some(s) => cursor := Some(s);
    }
    return Ok(Query(mode, lim, cursor, desc));
  }

  /**
   * The bound that the flat query's LIMIT clause receives, as the code builds
   * it. An absent limit becomes the text " ALL". The ascending query without a
   * cursor splices that text into the statement (LIMIT ALL: no bound); the
   * other three flat queries bind it as the statement's integer parameter,
   * which the database cannot read as a number.
   */
  function FlatLimitAsWritten(limitVal: string, since: bool, desc: bool): (r: Result<Option<nat>, ParamError>)
    ensures limitVal != "" ==> (r.Ok? <==> ParseNat(limitVal).Some?)
    ensures limitVal == "" ==> (r.Ok? <==> !since && !desc)
    ensures r.Ok? && limitVal == "" ==> r.value.None?
    ensures limitVal != "" && ParseNat(limitVal).Some? ==> r == Ok(Some(ParseNat(limitVal).value))
  {
    var text := if limitVal == "" then " ALL" else limitVal;
    if !desc && !since && limitVal == "" then Ok(None)
    else
      match ParseNat(text)
      case Some(n) => Ok(Some(n))
      case None => Err(BadLimit)
  }

  /** A flat request without a limit fails as written once it is descending or has a cursor. */
  lemma FlatDefaultLimitRejected()
    ensures FlatLimitAsWritten("", false, true) == Err(BadLimit)
    ensures FlatLimitAsWritten("", true, false) == Err(BadLimit)
    ensures FlatLimitAsWritten("", false, false) == Ok(None)
  {
    assert !IsDigit(' ');
  }
}
