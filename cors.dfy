/**
 * The `origin` callback of `corsOptions` in src/config/cors.config.ts: a
 * request without an origin is let through, a `*` entry lets every origin
 * through, and otherwise the origin must be one of the configured entries,
 * compared as whole strings. A rejected origin is named in the error.
 */
module Cors {
  import opened Wrappers

  /** `callback(null, true)` or `callback(new Error(message))`. */
  datatype Decision = Allow | Deny(message: string)

  /** `!origin`: the header is missing or empty. */
  predicate NoOrigin(origin: Option<string>) {
    origin.None? || origin.value == ""
  }

  function DenialMessage(origin: string): string {
    "Origin " + origin + " is not allowed by CORS policy"
  }

  /** The decision for a request's `Origin` header against the configured `CORS_ORIGIN` list. */
  function Decide(origin: Option<string>, allowedOrigins: seq<string>): (d: Decision)
    ensures d.Allow? <==> NoOrigin(origin) || "*" in allowedOrigins || origin.value in allowedOrigins
    ensures d.Deny? ==> !NoOrigin(origin) && d.message == DenialMessage(origin.value)
  {
    if NoOrigin(origin) then Allow
    else if "*" in allowedOrigins then Allow
    else if origin.value in allowedOrigins then Allow
    else Deny(DenialMessage(origin.value))
  }

  /** Requests without an origin (and with an empty one) pass whatever the configuration. */
  lemma NoOriginAllowed(allowedOrigins: seq<string>)
    ensures Decide(None, allowedOrigins) == Allow
    ensures Decide(Some(""), allowedOrigins) == Allow
  {
  }

  /** A `*` entry allows every origin. */
  lemma WildcardAllowsAll(origin: Option<string>, allowedOrigins: seq<string>)
    requires "*" in allowedOrigins
    ensures Decide(origin, allowedOrigins) == Allow
  {
  }

  /** Without `*`, a present origin is allowed exactly when it is listed; otherwise it is denied by name. */
  lemma MembershipOtherwise(origin: string, allowedOrigins: seq<string>)
    requires origin != "" && "*" !in allowedOrigins
    ensures Decide(Some(origin), allowedOrigins) == if origin in allowedOrigins then Allow else Deny(DenialMessage(origin))
  {
  }

  /** Only the set of entries matters, not their order or repetition. */
  lemma OnlyTheSetMatters(origin: Option<string>, a: seq<string>, b: seq<string>)
    requires forall x :: x in a <==> x in b
    ensures Decide(origin, a) == Decide(origin, b)
  {
    if !NoOrigin(origin) {
      assert "*" in a <==> "*" in b;
      assert origin.value in a <==> origin.value in b;
    }
  }

  /** Listing more origins never turns an allowed origin away. */
  lemma MoreEntriesAllowMore(origin: Option<string>, a: seq<string>, b: seq<string>)
    requires forall x :: x in a ==> x in b
    requires Decide(origin, a) == Allow
    ensures Decide(origin, b) == Allow
  {
  }

  /** The error message names the origin, so two denied origins give two different messages. */
  lemma DenialNamesOrigin(o1: string, o2: string)
    ensures DenialMessage(o1)[7..7 + |o1|] == o1
    ensures DenialMessage(o1) == DenialMessage(o2) ==> o1 == o2
  {
    var m1, m2 := DenialMessage(o1), DenialMessage(o2);
    assert m1[7..7 + |o1|] == o1;
    if m1 == m2 {
      assert |o1| == |o2|;
      assert m2[7..7 + |o2|] == o2;
    }
  }

  /** Entries are compared whole: `*` inside an entry is no pattern, and a prefix is no match. */
  lemma EntriesAreLiteral()
    ensures Decide(Some("https://app.example.com"), ["https://*.example.com"]).Deny?
    ensures Decide(Some("https://example.com.evil.io"), ["https://example.com"]).Deny?
  {
    assert "https://app.example.com" != "https://*.example.com" by {
      assert "https://app.example.com"[8] != "https://*.example.com"[8];
    }
    assert "https://example.com.evil.io" != "https://example.com" by {
      assert |"https://example.com.evil.io"| != |"https://example.com"|;
    }
    assert "https://*.example.com" != "*";
    assert "https://example.com" != "*";
  }
}
