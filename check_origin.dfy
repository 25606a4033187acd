/** The origin gate in front of the public routes
    (src/middlewares/checkOrigin.ts): a request goes on to the next handler
    only when its origin starts with one of the allowed entries. */
module CheckOrigin {
  import opened Api

  /** `s.split(",")` in JavaScript: the pieces between commas, empty pieces
      included, so there is always one more piece than there are commas. */
  function SplitComma(s: string): (parts: seq<string>)
    ensures |parts| == CommaCount(s) + 1
    ensures forall k :: 0 <= k < |parts| ==> ',' !in parts[k]
  {
    if s == [] then [""]
    else
      var rest := SplitComma(s[1..]);
      if s[0] == ',' then [""] + rest
      else [[s[0]] + rest[0]] + rest[1..]
  }

  function CommaCount(s: string): nat {
    if s == [] then 0 else (if s[0] == ',' then 1 else 0) + CommaCount(s[1..])
  }

  /** `parts.join(",")` */
  function JoinComma(parts: seq<string>): string
    requires |parts| >= 1
  {
    if |parts| == 1 then parts[0] else parts[0] + "," + JoinComma(parts[1..])
  }

  /** Splitting loses nothing: joining the pieces back gives the variable. */
  lemma {:induction false} JoinSplit(s: string)
    ensures JoinComma(SplitComma(s)) == s
  {
    if s != [] {
      var rest := SplitComma(s[1..]);
      JoinSplit(s[1..]);
      if s[0] == ',' {
        assert SplitComma(s) == [""] + rest;
        assert ([""] + rest)[1..] == rest;
        assert JoinComma(SplitComma(s)) == "" + "," + s[1..];
      } else {
        var first := [s[0]] + rest[0];
        assert SplitComma(s) == [first] + rest[1..];
        if |rest| == 1 {
          assert JoinComma(SplitComma(s)) == first;
        } else {
          assert ([first] + rest[1..])[1..] == rest[1..];
          assert JoinComma(SplitComma(s)) == first + "," + JoinComma(rest[1..]);
          assert JoinComma(rest) == rest[0] + "," + JoinComma(rest[1..]);
        }
      }
    }
  }

  /** Appending `,entry` to the variable appends `entry` to the list. */
  lemma {:induction false} SplitAppend(s: string, entry: string)
    requires ',' !in entry
    ensures SplitComma(s + "," + entry) == SplitComma(s) + [entry]
  {
    if s == [] {
      assert ("" + "," + entry)[1..] == entry;
      SplitNoComma(entry);
    } else {
      assert (s + "," + entry)[1..] == s[1..] + "," + entry;
      SplitAppend(s[1..], entry);
    }
  }

  /** A string with no comma splits into itself alone. */
  lemma {:induction false} SplitNoComma(s: string)
    requires ',' !in s
    ensures SplitComma(s) == [s]
  {
    if s != [] {
      assert s[0] in s;
      assert forall c :: c in s[1..] ==> c in s;
      SplitNoComma(s[1..]);
      assert [s[0]] + s[1..] == s;
    }
  }

  /** The allowed list, read once from ALLOWED_ORIGINS:
      `process.env.ALLOWED_ORIGINS?.split(",") || []`. An unset variable
      gives the empty list; a set one, even "", gives at least one entry. */
  function AllowedOrigins(allowedOriginsEnv: Option<string>): (allowed: seq<string>)
    ensures allowedOriginsEnv.None? <==> allowed == []
  {
    match allowedOriginsEnv
    case None => []
    case Some(v) => SplitComma(v)
  }

  /** `req.get("origin") || req.get("referer")`: the Origin header when it
      is present and non-empty, else the Referer header as it is. */
  function ResolveOrigin(originHeader: Option<string>, refererHeader: Option<string>): (origin: Option<string>)
    ensures Truthy(originHeader) ==> origin == originHeader
    ensures !Truthy(originHeader) ==> origin == refererHeader
  {
    if Truthy(originHeader) then originHeader else refererHeader
  }

  /** `allowed.some((a) => origin.startsWith(a))`, evaluated entry by entry. */
  function SomePrefix(allowed: seq<string>, origin: string): (found: bool)
    ensures found <==> exists k :: 0 <= k < |allowed| && allowed[k] <= origin
  {
    if allowed == [] then false
    else allowed[0] <= origin || SomePrefix(allowed[1..], origin)
  }

  /** What the middleware does with a request. */
  datatype Decision = Next | Deny(status: nat)

  const Forbidden: nat := 403

  /** `checkOrigin`: calls `next` when the resolved origin is non-empty and
      starts with some allowed entry; otherwise answers 403 without calling
      `next`. */
  function Check(originHeader: Option<string>, refererHeader: Option<string>, allowedOriginsEnv: Option<string>): (d: Decision)
    ensures d.Next? || d == Deny(Forbidden)
    ensures d.Next? <==>
      var origin := ResolveOrigin(originHeader, refererHeader);
      && Truthy(origin)
      && exists k :: 0 <= k < |AllowedOrigins(allowedOriginsEnv)| && AllowedOrigins(allowedOriginsEnv)[k] <= origin.value
  {
    var origin := ResolveOrigin(originHeader, refererHeader);
    if Truthy(origin) && SomePrefix(AllowedOrigins(allowedOriginsEnv), origin.value) then Next
    else Deny(Forbidden)
  }

  /** With neither header the request is denied with 403. */
  lemma NoHeadersDenied(allowedOriginsEnv: Option<string>)
    ensures Check(None, None, allowedOriginsEnv) == Deny(Forbidden)
  {
  }

  /** With ALLOWED_ORIGINS unset every request is denied. */
  lemma UnsetVariableDeniesAll(originHeader: Option<string>, refererHeader: Option<string>)
    ensures Check(originHeader, refererHeader, None) == Deny(Forbidden)
  {
  }

  /** ALLOWED_ORIGINS set to "" yields the single entry "", a prefix of
      everything: every request with a non-empty origin passes. */
  lemma EmptyVariableAdmitsAll(originHeader: Option<string>, refererHeader: Option<string>)
    requires Truthy(ResolveOrigin(originHeader, refererHeader))
    ensures Check(originHeader, refererHeader, Some("")) == Next
  {
    assert AllowedOrigins(Some(""))[0] == "";
  }

  /** Adding an entry to ALLOWED_ORIGINS never turns an allowed request
      into a denied one. */
  lemma AddingEntryKeepsAllowed(originHeader: Option<string>, refererHeader: Option<string>, v: string, entry: string)
    requires ',' !in entry
    requires Check(originHeader, refererHeader, Some(v)) == Next
    ensures Check(originHeader, refererHeader, Some(v + "," + entry)) == Next
  {
    SplitAppend(v, entry);
    var origin := ResolveOrigin(originHeader, refererHeader).value;
    var k :| 0 <= k < |SplitComma(v)| && SplitComma(v)[k] <= origin;
    assert SplitComma(v + "," + entry)[k] == SplitComma(v)[k];
  }
}
