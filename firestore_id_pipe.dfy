/** The route-parameter pipe that accepts only strings that look like
    Firestore document ids: one to 128 UTF-16 code units, none of them
    whitespace or `/`. The regular expression has no `u` flag, so it
    matches code units; `IsFirestoreId` restates the rule on characters. */
module FirestoreIdPipe {
  import opened Outcomes
  import opened JsStrings
  import opened Repository

  const MaxIdLength: nat := 128

  /** The class `[^\s/]` on one code unit. */
  predicate IdUnit(u: CodeUnit) {
    !IsWhitespaceUnit(u) && u != 0x2F
  }

  /** `ID_REGEX.test(value)` for `^[^\s/]{1,128}$`: a match is a
      non-empty value of at most 128 code units without a `/`. */
  predicate MatchesIdRegex(value: string)
    ensures MatchesIdRegex(value) ==> value != "" && JsLength(value) <= MaxIdLength && '/' !in value
  {
    UnitsAllowedIff(value);
    var units := Utf16Units(value);
    1 <= |units| <= MaxIdLength && forall k :: 0 <= k < |units| ==> IdUnit(units[k])
  }

  /** A character the class accepts: a character outside the Basic
      Multilingual Plane is two surrogates, which are neither whitespace
      nor `/`. */
  predicate IdChar(c: char) {
    c as int >= 0x1_0000 || (c != '/' && !IsWhitespaceUnit(c as int))
  }

  /** The accepted values, stated on characters. */
  predicate IsFirestoreId(value: string) {
    value != "" && JsLength(value) <= MaxIdLength && forall i :: 0 <= i < |value| ==> IdChar(value[i])
  }

  function InvalidIdMessage(value: string): string {
    "\"" + value + "\" is not a valid Firestore document ID"
  }

  /** `transform(value)`: the value itself when it is a valid id, otherwise
      BadRequest naming it. */
  function Transform(value: string): (r: Result<string>)
    ensures r.Ok? <==> IsFirestoreId(value)
    ensures r.Ok? ==> r.value == value
    ensures r.Err? ==> r.error == BadRequest(InvalidIdMessage(value))
  {
    UnitsAllowedIff(value);
    if value == "" || !MatchesIdRegex(value) then Err(BadRequest(InvalidIdMessage(value)))
    else Ok(value)
  }

  /** The code units of a string are all accepted exactly when its
      characters all are. */
  lemma {:induction false} UnitsAllowedIff(s: string)
    ensures (forall k :: 0 <= k < |Utf16Units(s)| ==> IdUnit(Utf16Units(s)[k])) <==>
            (forall i :: 0 <= i < |s| ==> IdChar(s[i]))
  {
    if s != [] {
      var head, tail := CharUnits(s[0]), Utf16Units(s[1..]);
      UnitsAllowedIff(s[1..]);
      assert Utf16Units(s) == head + tail;
      AllUnitsSplit(head, tail);
      assert (forall k :: 0 <= k < |head| ==> IdUnit(head[k])) <==> IdChar(s[0]);
      assert (forall i :: 0 <= i < |s| ==> IdChar(s[i])) <==>
             IdChar(s[0]) && (forall i :: 0 <= i < |s[1..]| ==> IdChar(s[1..][i]));
    }
  }

  lemma AllUnitsSplit(a: seq<CodeUnit>, b: seq<CodeUnit>)
    ensures (forall k :: 0 <= k < |a + b| ==> IdUnit((a + b)[k])) <==>
            (forall k :: 0 <= k < |a| ==> IdUnit(a[k])) && (forall k :: 0 <= k < |b| ==> IdUnit(b[k]))
  {
    if forall k :: 0 <= k < |a| ==> IdUnit(a[k]) {
      if forall k :: 0 <= k < |b| ==> IdUnit(b[k]) {
        forall k | 0 <= k < |a + b| ensures IdUnit((a + b)[k]) {
          if k >= |a| {
            assert (a + b)[k] == b[k - |a|];
          }
        }
      }
    }
    if forall k :: 0 <= k < |a + b| ==> IdUnit((a + b)[k]) {
      forall k | 0 <= k < |a| ensures IdUnit(a[k]) {
        assert (a + b)[k] == a[k];
      }
      forall k | 0 <= k < |b| ensures IdUnit(b[k]) {
        assert (a + b)[|a| + k] == b[k];
      }
    }
  }

  /** The empty string is never an id. */
  lemma EmptyRejected()
    ensures Transform("") == Err(BadRequest(InvalidIdMessage("")))
  {
  }

  /** An accepted value passes the pipe again, unchanged. */
  lemma TransformIdempotent(value: string)
    requires Transform(value).Ok?
    ensures Transform(Transform(value).value) == Transform(value)
  {
  }

  /** A string of characters below U+10000 is as long in JavaScript as it
      is in characters. */
  lemma {:induction false} BmpLength(s: string)
    requires forall i :: 0 <= i < |s| ==> s[i] as int < 0x1_0000
    ensures JsLength(s) == |s|
  {
    if s != [] {
      BmpLength(s[1..]);
    }
  }

  /** Every id the store generates passes the pipe, so the routes that take
      an id can reach every created user. */
  lemma AutoIdsAccepted(id: string)
    requires IsAutoId(id)
    ensures Transform(id) == Ok(id)
  {
    BmpLength(id);
    forall i | 0 <= i < |id| ensures IdChar(id[i]) {
      assert IsAutoIdChar(id[i]);
    }
  }

  /** A value longer than 128 code units, or holding a `/`, is rejected. */
  lemma SlashOrLongRejected(value: string)
    requires JsLength(value) > MaxIdLength || '/' in value
    ensures Transform(value).Err?
  {
  }
}
