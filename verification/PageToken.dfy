/** The page token of the gRPC listing: a timestamp and a code with a colon
    between them, and what a client gets that sends it back. */
module PageToken {
  import opened Domain
  import opened Pagination

  /** The parts of `str::split(':')`; there is always at least one. */
  function Split(s: string): (parts: seq<string>)
    ensures |parts| >= 1
  {
    if s == "" then [""]
    else
      var rest := Split(s[1..]);
      if s[0] == ':' then [""] + rest else [[s[0]] + rest[0]] + rest[1..]
  }

  /** The timestamp comes first. */
  function Format(ts: string, code: string): (token: string)
    ensures ts <= token && |token| == |ts| + 1 + |code| && token[|ts|] == ':' && token[|ts| + 1..] == code
  {
    ts + ":" + code
  }

  function Parse(token: string): Cursor {
    var parts := Split(token);
    if |parts| == 2 then Some((parts[0], parts[1])) else None
  }

  function Colons(s: string): nat {
    if s == "" then 0 else (if s[0] == ':' then 1 else 0) + Colons(s[1..])
  }

  lemma {:induction false} SplitCounts(s: string)
    ensures |Split(s)| == Colons(s) + 1
    ensures Colons(s) == 0 ==> Split(s) == [s]
  {
    if s != "" {
      SplitCounts(s[1..]);
      assert s == [s[0]] + s[1..];
    }
  }

  lemma {:induction false} ColonsAdd(a: string, b: string)
    ensures Colons(a + b) == Colons(a) + Colons(b)
  {
    if a == "" {
      assert a + b == b;
    } else {
      ColonsAdd(a[1..], b);
      assert (a + b)[1..] == a[1..] + b;
    }
  }

  lemma {:induction false} NoColons(s: string)
    ensures Colons(s) == 0 <==> ':' !in s
  {
    if s != "" {
      NoColons(s[1..]);
      assert s == [s[0]] + s[1..];
    }
  }

  lemma {:induction false} SplitAtColon(a: string, b: string)
    requires Colons(a) == 0 && Colons(b) == 0
    ensures Split(Format(a, b)) == [a, b]
  {
    var s := Format(a, b);
    if a == "" {
      assert s[1..] == b;
      SplitCounts(b);
    } else {
      SplitAtColon(a[1..], b);
      assert s[1..] == Format(a[1..], b);
      assert a == [a[0]] + a[1..];
    }
  }

  lemma FormatColons(ts: string, code: string)
    ensures Colons(Format(ts, code)) == Colons(ts) + 1 + Colons(code)
  {
    assert Format(ts, code) == ts + (":" + code);
    ColonsAdd(ts, ":" + code);
    assert (":" + code)[1..] == code;
  }

  /** The token round-trips if and only if neither half has a colon; otherwise
      it decodes to no cursor at all. */
  lemma RoundTrip(ts: string, code: string)
    ensures Parse(Format(ts, code)) == Some((ts, code)) <==> ':' !in ts && ':' !in code
    ensures Parse(Format(ts, code)) == None <==> ':' in ts || ':' in code
  {
    NoColons(ts);
    NoColons(code);
    FormatColons(ts, code);
    SplitCounts(Format(ts, code));
    if Colons(ts) == 0 && Colons(code) == 0 {
      SplitAtColon(ts, code);
    }
  }

  /** Whatever token does decode is the one its cursor is printed as. */
  lemma {:induction false} ParseThenFormat(token: string)
    requires Parse(token).Some?
    ensures Format(Parse(token).value.0, Parse(token).value.1) == token
  {
    SplitJoins(token);
  }

  lemma {:induction false} SplitJoins(s: string)
    ensures |Split(s)| == 2 ==> Format(Split(s)[0], Split(s)[1]) == s
  {
    if s != "" {
      var rest := Split(s[1..]);
      assert s == [s[0]] + s[1..];
      if s[0] == ':' {
        SplitCounts(s[1..]);
      } else {
        SplitJoins(s[1..]);
      }
    }
  }

  // ----- the cursors of the two repositories -----

  /** What `validate_custom_code` accepts. */
  predicate ValidCustomCode(code: string) {
    4 <= |code| <= 32 && forall i :: 0 <= i < |code| ==> CodeChar(code[i])
  }

  predicate CodeChar(c: char) {
    'a' <= c <= 'z' || 'A' <= c <= 'Z' || '0' <= c <= '9' || c == '_' || c == '-'
  }

  /** Over the in-memory repository, the token of a link with a validated code
      names that link again. */
  lemma InMemoryTokenRoundTrips(link: ShortLink)
    requires ValidCustomCode(link.code)
    ensures var c := CursorOf(link); Parse(Format(c.0, c.1)) == Some(c)
  {
    var (ts, code) := CursorOf(link);
    RoundTrip(ts, code);
  }

  /** The date-time of section 5.6 of RFC 3339, as far as its separators go:
      a full-date of ten characters, a T, and hours, minutes and seconds. */
  predicate Rfc3339Shape(ts: string) {
    |ts| >= 20 && ts[4] == ts[7] == '-' && (ts[10] == 'T' || ts[10] == 't') && ts[13] == ts[16] == ':'
  }

  /** A token with an RFC 3339 timestamp never decodes to a cursor. */
  lemma Rfc3339TokenIsLost(ts: string, code: string)
    requires Rfc3339Shape(ts)
    ensures Parse(Format(ts, code)) == None
  {
    assert ts[13] in ts;
    RoundTrip(ts, code);
  }

  /** The keyset cursor a gRPC client's token turns into; `decode` is the
      RFC 3339 reader of the repository. */
  function KeyFromToken(token: string, decode: string -> Timestamp): Option<Key> {
    match Parse(token)
    case None => None
    case Some(c) => Some(Key(decode(c.0), c.1))
  }

  /** A token without further colons gives back the key that was listed: the
      instant its timestamp stands for, and the code. */
  lemma TokenNamesKey(ts: string, code: string, decode: string -> Timestamp)
    requires ':' !in ts && ':' !in code
    ensures KeyFromToken(Format(ts, code), decode) == Some(Key(decode(ts), code))
  {
    RoundTrip(ts, code);
  }

  /** So over the Postgres repository a gRPC client that sends its token back
      gets the first page again, whatever page it had. */
  lemma GrpcRepeatsFirstPage(t: Table, limit: nat, ts: string, code: string, decode: string -> Timestamp,
                             first: seq<ShortLink>, page: seq<ShortLink>)
    requires Keyed(t) && Rfc3339Shape(ts)
    requires IsPage(t, limit, None, first)
    requires IsPage(t, limit, KeyFromToken(Format(ts, code), decode), page)
    ensures page == first
  {
    Rfc3339TokenIsLost(ts, code);
    IsPageUnique(t, limit, None, first, page);
  }
}
