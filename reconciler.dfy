/**
 * Request-ID reconciliation: given the optional incoming `X-Request-ID` header value, keep it
 * when one of its comma-separated tokens (section 4.2 of RFC 2616) is already unique, and
 * otherwise append one freshly generated version-4 UUID.
 */
module Reconciler {
  import opened Wrappers
  import opened Strings
  import opened Uuid

  /** `RequestID._request_id_unique`: the token contains the trusted prefix (anywhere) or parses
      as a UUID. An empty prefix is found in every token; a token that is unique without the
      prefix is a UUID, so at least 32 characters long and free of commas. */
  function RequestIdUnique(requestId: string, uniquePrefix: Option<string>): (unique: bool)
    ensures uniquePrefix == Some("") ==> unique
    ensures unique && (uniquePrefix.None? || !Contains(requestId, uniquePrefix.value))
            ==> IsUuid(requestId) && |requestId| >= 32 && ',' !in requestId
  {
    (uniquePrefix.Some? && Contains(requestId, uniquePrefix.value)) || IsUuid(requestId)
  }

  /** Some token of the list is unique. */
  predicate AnyUnique(tokens: seq<string>, uniquePrefix: Option<string>)
  {
    exists i :: 0 <= i < |tokens| && RequestIdUnique(tokens[i], uniquePrefix)
  }

  /** A scan that found no unique token among the first `i` and none at `i` has found none among
      the first `i + 1`. */
  lemma NoUniqueTokenExtends(tokens: seq<string>, i: nat, uniquePrefix: Option<string>)
    requires i < |tokens|
    requires !AnyUnique(tokens[..i], uniquePrefix) && !RequestIdUnique(tokens[i], uniquePrefix)
    ensures !AnyUnique(tokens[..i + 1], uniquePrefix)
  {
    // Each token of the longer prefix is one of the shorter prefix or the token at `i`.
    forall j | 0 <= j < i + 1 ensures !RequestIdUnique(tokens[j], uniquePrefix) {
      if j < i {
        assert tokens[..i][j] == tokens[j];
      }
    }
  }

  /** The header value `_compute_request_id_header` returns, with `generated` the value the
      generator would produce for this request. The incoming value is always kept as the start. */
  function Reconcile(header: Option<string>, uniquePrefix: Option<string>, generated: string): (r: string)
    ensures header.Some? ==> header.value <= r
  {
    match header
    case None => generated
    case Some(h) =>
      if AnyUnique(Split(h, ','), uniquePrefix) then h else h + "," + generated
  }

  /** With no header at all, the result is the generated UUID alone: one token, and unique. */
  lemma {:induction false} AbsentHeaderIsOneUuid(uniquePrefix: Option<string>, generated: string)
    requires IsUuid(generated)
    ensures Reconcile(None, uniquePrefix, generated) == generated
    ensures Split(Reconcile(None, uniquePrefix, generated), ',') == [generated]
    ensures RequestIdUnique(generated, uniquePrefix)
  {
    SplitWithoutSeparator(generated, ',');
  }

  /** When a token is unique the header passes through byte for byte, with the same tokens. */
  lemma UniqueTokenPassesThrough(h: string, uniquePrefix: Option<string>, generated: string, i: nat)
    requires i < |Split(h, ',')| && RequestIdUnique(Split(h, ',')[i], uniquePrefix)
    ensures Reconcile(Some(h), uniquePrefix, generated) == h
    ensures Split(Reconcile(Some(h), uniquePrefix, generated), ',') == Split(h, ',')
  {
  }

  /** A UUID token is unique whatever prefix is configured: the prefix test only adds tokens. */
  lemma UuidIsUnique(requestId: string, uniquePrefix: Option<string>)
    requires IsUuid(requestId)
    ensures RequestIdUnique(requestId, uniquePrefix)
  {
  }

  /** A header holding a UUID token passes through unchanged, whatever prefix is configured. */
  lemma UuidTokenPassesThrough(h: string, uniquePrefix: Option<string>, generated: string, i: nat)
    requires i < |Split(h, ',')| && IsUuid(Split(h, ',')[i])
    ensures Reconcile(Some(h), uniquePrefix, generated) == h
  {
    UuidIsUnique(Split(h, ',')[i], uniquePrefix);
  }

  /** Two UUIDs joined by a comma, as `f"{ uuid4() },{ uuid4() }"`, pass through unchanged as
      exactly those two tokens, whatever prefix is configured. */
  lemma {:induction false} TwoUuidsPassThrough(a: string, b: string, uniquePrefix: Option<string>, generated: string)
    requires IsUuid(a) && IsUuid(b)
    ensures Split(a + "," + b, ',') == [a, b]
    ensures Reconcile(Some(a + "," + b), uniquePrefix, generated) == a + "," + b
  {
    TwoTokensSplit(a, b);
    UuidTokenPassesThrough(a + "," + b, uniquePrefix, generated, 0);
  }

  /** Two comma-free tokens joined by a comma split back into exactly those two. */
  lemma TwoTokensSplit(a: string, b: string)
    requires ',' !in a && ',' !in b
    ensures Split(a + "," + b, ',') == [a, b]
  {
    assert a + [','] + b == a + "," + b;
    SplitConcat(a, b, ',');
    SplitWithoutSeparator(a, ',');
    SplitWithoutSeparator(b, ',');
  }

  /** When no token is unique exactly one token, the generated one, is appended: the old tokens
      stay in front in their order, and joining them back gives the old header. */
  lemma {:induction false} NoUniqueTokenAppendsOne(h: string, uniquePrefix: Option<string>, generated: string)
    requires !AnyUnique(Split(h, ','), uniquePrefix)
    requires IsUuid(generated)
    ensures Reconcile(Some(h), uniquePrefix, generated) == h + "," + generated
    ensures Split(Reconcile(Some(h), uniquePrefix, generated), ',') == Split(h, ',') + [generated]
    ensures |Split(Reconcile(Some(h), uniquePrefix, generated), ',')| == |Split(h, ',')| + 1
    ensures Join(Split(Reconcile(Some(h), uniquePrefix, generated), ',')[..|Split(h, ',')|], ',') == h
    ensures |h| < |Reconcile(Some(h), uniquePrefix, generated)|
  {
    SplitWithoutSeparator(generated, ',');
    SplitConcat(h, generated, ',');
    assert h + "," + generated == h + [','] + generated;
    var r := Reconcile(Some(h), uniquePrefix, generated);
    assert Split(r, ',')[..|Split(h, ',')|] == Split(h, ',');
    SplitJoin(h, ',');
  }

  /** Whatever comes in, what goes out holds at least one unique token. */
  lemma {:induction false} ResultHasUniqueToken(header: Option<string>, uniquePrefix: Option<string>, generated: string)
    requires IsUuid(generated)
    ensures AnyUnique(Split(Reconcile(header, uniquePrefix, generated), ','), uniquePrefix)
  {
    match header
    case None =>
      AbsentHeaderIsOneUuid(uniquePrefix, generated);
      assert Split(generated, ',')[0] == generated;
    case Some(h) =>
      if !AnyUnique(Split(h, ','), uniquePrefix) {
        NoUniqueTokenAppendsOne(h, uniquePrefix, generated);
        var tokens := Split(h + "," + generated, ',');
        assert tokens[|tokens| - 1] == generated;
      }
  }

  /** Reconciling an already reconciled header changes nothing, whatever the second generated value. */
  lemma {:induction false} ReconcileIdempotent(header: Option<string>, uniquePrefix: Option<string>, generated: string, again: string)
    requires IsUuid(generated)
    ensures Reconcile(Some(Reconcile(header, uniquePrefix, generated)), uniquePrefix, again)
         == Reconcile(header, uniquePrefix, generated)
  {
    ResultHasUniqueToken(header, uniquePrefix, generated);
  }

  /** A token containing the trusted prefix anywhere, not only at its start, is unique. */
  lemma {:induction false} PrefixAnywhereIsUnique(before: string, prefix: string, after: string)
    ensures RequestIdUnique(before + prefix + after, Some(prefix))
  {
    ContainsInfix(before, prefix, after);
  }

  /** Without a configured prefix, only a UUID token is unique. */
  lemma NoPrefixMeansUuid(requestId: string)
    ensures RequestIdUnique(requestId, None) <==> IsUuid(requestId)
  {
  }

  /** An empty trusted prefix occurs in every token, so every header passes through unchanged. */
  lemma EmptyPrefixPassesEverything(h: string, generated: string)
    ensures Reconcile(Some(h), Some(""), generated) == h
  {
    assert RequestIdUnique(Split(h, ',')[0], Some(""));
  }

  /** An empty header is the one token `""`; without a prefix it is not unique, so the result
      is a comma followed by the generated value. */
  lemma {:induction false} EmptyHeaderGetsLeadingComma(generated: string)
    ensures Split("", ',') == [""]
    ensures Reconcile(Some(""), None, generated) == "," + generated
  {
    assert !AnyUnique([""], None);
  }

  /** A header whose first token carries the trusted prefix passes through whatever follows it,
      as `"TEST-X,client-non-unique-value"` does with prefix `"TEST-"`. */
  lemma {:induction false} PrefixedFirstTokenPassesThrough(first: string, rest: string, prefix: string, generated: string)
    requires ',' !in first && Contains(first, prefix)
    ensures Reconcile(Some(first + "," + rest), Some(prefix), generated) == first + "," + rest
    ensures Split(first + "," + rest, ',') == [first] + Split(rest, ',')
  {
    assert first + [','] + rest == first + "," + rest;
    SplitConcat(first, rest, ',');
    SplitWithoutSeparator(first, ',');
    assert Split(first + "," + rest, ',')[0] == first;
  }

  /** A header none of whose tokens is a UUID candidate (each is shorter than 32 characters) or
      contains the prefix, such as `"x-1,x-2,x3,x-4,x-5,x-6,x-7,x-8"` with prefix `"TEST-"`,
      gains exactly one token. */
  lemma {:induction false} ShortTokensGainOne(h: string, prefix: string, generated: string)
    requires forall i :: 0 <= i < |Split(h, ',')| ==> |Split(h, ',')[i]| < 32 && !Contains(Split(h, ',')[i], prefix)
    requires IsUuid(generated)
    ensures Split(Reconcile(Some(h), Some(prefix), generated), ',') == Split(h, ',') + [generated]
  {
    var tokens := Split(h, ',');
    forall i | 0 <= i < |tokens| ensures !RequestIdUnique(tokens[i], Some(prefix)) {
      assert |tokens[i]| < 32 && !Contains(tokens[i], prefix);
    }
    NoUniqueTokenAppendsOne(h, Some(prefix), generated);
  }
}
