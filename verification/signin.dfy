/**
 * The sign-in token store of the resource website's front end.
 *
 * `onSignIn` serialises the identity token handed over by the sign-in
 * provider, together with its expiry date, into one cookie-shaped string
 * and stores it in the page-global property `document.cookies` (note the
 * plural: a plain property, not the browser's cookie jar, so every write
 * replaces the whole previous value). `getID_Token` reads that property
 * back: it splits it on `;`, drops the leading spaces of each segment and
 * returns what follows `id_token=` in the first segment that starts with
 * it, or the empty string.
 */
module SignIn {
  import opened JsStrings

  datatype Option<T> = None | Some(value: T)

  /** What the provider's `getAuthResponse()` hands over: the token and its lifetime in seconds. */
  datatype AuthResponse = AuthResponse(idToken: string, expiresIn: int)

  /** The page's global `document`, reduced to the one property the store uses. */
  class Document {
    /** `document.cookies`; `None` stands for `undefined`. */
    var cookies: Option<string>

    /** A freshly loaded page: nothing has been stored yet. */
    constructor ()
      ensures cookies == None
    {
      cookies := None;
    }
  }

  /** The cookie name the parser looks for, including its `=`. */
  const Name: string := "id_token="

  /** The instant, in milliseconds since the epoch, at which a token issued at `now` expires. */
  function ExpiryInstant(now: int, expiresIn: int): int
  {
    now + expiresIn * 1000
  }

  /** The record `onSignIn` stores, for a token and an already formatted expiry date. */
  function CookieString(token: string, date: string): string
  {
    Name + token + "; expires=" + date + "; path=/;"
  }

  /** The segment with its leading spaces removed (the inner `while` of `getID_Token`). */
  function StripLeadingSpaces(c: string): string
    decreases |c|
  {
    if |c| > 0 && c[0] == ' ' then StripLeadingSpaces(c[1..]) else c
  }

  /**
   * Only leading spaces are removed: what is left is a suffix of `c` that
   * does not start with a space, and all that was dropped are spaces.
   */
  lemma {:induction false} StripLeadingSpacesSpec(c: string)
    ensures |StripLeadingSpaces(c)| <= |c|
    ensures StripLeadingSpaces(c) == c[|c| - |StripLeadingSpaces(c)|..]
    ensures forall i :: 0 <= i < |c| - |StripLeadingSpaces(c)| ==> c[i] == ' '
    ensures StripLeadingSpaces(c) == "" || StripLeadingSpaces(c)[0] != ' '
    decreases |c|
  {
    if |c| > 0 && c[0] == ' ' {
      StripLeadingSpacesSpec(c[1..]);
    }
  }

  /** A segment holds the token when, once its leading spaces are gone, it begins with `id_token=`. */
  predicate Matches(segment: string)
  {
    Name <= StripLeadingSpaces(segment)
  }

  /** The token text of a matching segment: everything after `id_token=`. */
  function ValueOf(segment: string): string
    requires Matches(segment)
  {
    StripLeadingSpaces(segment)[|Name|..]
  }

  /** The value of the first matching segment, in order, or `""` when none matches. */
  function FirstMatch(segments: seq<string>): string
    decreases |segments|
  {
    if segments == [] then ""
    else if Matches(segments[0]) then ValueOf(segments[0])
    else FirstMatch(segments[1..])
  }

  /** What `getID_Token` returns for a given value of `document.cookies`. */
  function ParseIdToken(cookies: Option<string>): string
  {
    match cookies
    case None => ""
    case Some(s) => FirstMatch(Split(s, ';'))
  }

  /**
   * `onSignIn`: stores the token with an expiry `expires_in` seconds after
   * `now`, replacing whatever was stored before, and returns the token.
   * The host clock is the parameter `now` (milliseconds) and the host's
   * `toUTCString` is the parameter `toUtcString`.
   */
  method OnSignIn(doc: Document, user: AuthResponse, now: int, toUtcString: int -> string)
    returns (idToken: string)
    modifies doc
    ensures idToken == user.idToken
    ensures doc.cookies == Some(CookieString(user.idToken, toUtcString(ExpiryInstant(now, user.expiresIn))))
  {
    idToken := user.idToken;
    var expireMs := user.expiresIn * 1000;
    var d := now;
    d := d + expireMs;
    var expires := " expires=" + toUtcString(d) + ";";
    doc.cookies := Some("id_token=" + idToken + ";" + expires + " path=/;");
    assert "id_token=" + idToken + ";" + expires + " path=/;"
        == CookieString(idToken, toUtcString(d));
  }

  /**
   * `getID_Token`: the token stored in `document.cookies`, or `""` when the
   * property is undefined or holds no `id_token=` segment. `firstRun` only
   * fed a retry that is disabled, so it has no effect on the result.
   */
  method GetIdToken(doc: Document, firstRun: bool := true) returns (value: string)
    ensures value == ParseIdToken(doc.cookies)
    ensures doc.cookies == None ==> value == ""
  {
    if doc.cookies == None {
      return "";
    }
    var name := Name;
    value := "";
    var cookiesArray := Split(doc.cookies.value, ';');
    var i := 0;
    while i < |cookiesArray|
      invariant 0 <= i <= |cookiesArray|
      invariant value == ""
      invariant FirstMatch(cookiesArray[i..]) == FirstMatch(cookiesArray)
    {
      var c := cookiesArray[i];
      while |c| > 0 && c[0] == ' '
        invariant StripLeadingSpaces(c) == StripLeadingSpaces(cookiesArray[i])
      {
        c := c[1..];
      }
      assert c == StripLeadingSpaces(cookiesArray[i]);
      assert cookiesArray[i..][0] == cookiesArray[i];
      if name <= c {
        value := c[|name|..];
        break;
      }
      assert cookiesArray[i..][1..] == cookiesArray[i + 1..];
      i := i + 1;
    }
  }

  // Properties of the parser

  /** Exactly `n` leading spaces, then `id_token=`. */
  predicate SpacesThenName(segment: string, n: nat)
  {
    n <= |segment| && (forall i :: 0 <= i < n ==> segment[i] == ' ') && Name <= segment[n..]
  }

  /**
   * Only leading spaces are skipped: a segment matches exactly when it is a
   * run of spaces followed by `id_token=` (so `my_id_token=x` does not).
   */
  lemma MatchesIff(segment: string)
    ensures Matches(segment) <==> exists n: nat :: SpacesThenName(segment, n)
  {
    StripLeadingSpacesSpec(segment);
    var r := StripLeadingSpaces(segment);
    var m := |segment| - |r|;
    if Matches(segment) {
      assert SpacesThenName(segment, m);
    }
    if n: nat :| SpacesThenName(segment, n) {
      assert segment[n] == 'i';
      assert r == segment[n..];
    }
  }

  /** When no segment matches, the result is the empty string. */
  lemma {:induction false} FirstMatchNone(segments: seq<string>)
    requires forall k :: 0 <= k < |segments| ==> !Matches(segments[k])
    ensures FirstMatch(segments) == ""
    decreases |segments|
  {
    if segments != [] {
      FirstMatchNone(segments[1..]);
    }
  }

  /** The first matching segment decides the result. */
  lemma {:induction false} FirstMatchWins(segments: seq<string>, k: nat)
    requires k < |segments| && Matches(segments[k])
    requires forall j :: 0 <= j < k ==> !Matches(segments[j])
    ensures FirstMatch(segments) == ValueOf(segments[k])
    decreases k
  {
    if k > 0 {
      FirstMatchWins(segments[1..], k - 1);
    }
  }

  /** Once a match has been seen, segments after it are ignored. */
  lemma {:induction false} LaterMatchesIgnored(segments: seq<string>, more: seq<string>)
    requires exists k :: 0 <= k < |segments| && Matches(segments[k])
    ensures FirstMatch(segments + more) == FirstMatch(segments)
    decreases |segments|
  {
    assert (segments + more)[0] == segments[0];
    if !Matches(segments[0]) {
      assert (segments + more)[1..] == segments[1..] + more;
      var k :| 0 <= k < |segments| && Matches(segments[k]);
      assert segments[1..][k - 1] == segments[k];
      LaterMatchesIgnored(segments[1..], more);
    }
  }

  /** A non-empty result is the value of one of the segments. */
  lemma {:induction false} FirstMatchFrom(segments: seq<string>)
    ensures FirstMatch(segments) == ""
         || exists k :: 0 <= k < |segments| && Matches(segments[k]) && FirstMatch(segments) == ValueOf(segments[k])
    decreases |segments|
  {
    if segments != [] && !Matches(segments[0]) {
      FirstMatchFrom(segments[1..]);
      if FirstMatch(segments[1..]) != "" {
        var k :| 0 <= k < |segments[1..]| && Matches(segments[1..][k])
                 && FirstMatch(segments[1..]) == ValueOf(segments[1..][k]);
        assert segments[k + 1] == segments[1..][k];
      }
    }
  }

  /** The token read back never contains `;`: it lies inside one segment of the split. */
  lemma ParseNoSemicolon(cookies: Option<string>)
    ensures ';' !in ParseIdToken(cookies)
  {
    if cookies.Some? {
      var segments := Split(cookies.value, ';');
      FirstMatchFrom(segments);
      if ParseIdToken(cookies) != "" {
        var k :| 0 <= k < |segments| && Matches(segments[k]) && ParseIdToken(cookies) == ValueOf(segments[k]);
        ValueIsSuffix(segments[k]);
      }
    }
  }

  /** The value of a matching segment is a suffix of that segment. */
  lemma ValueIsSuffix(segment: string)
    requires Matches(segment)
    ensures |ValueOf(segment)| <= |segment|
    ensures ValueOf(segment) == segment[|segment| - |ValueOf(segment)|..]
  {
    StripLeadingSpacesSpec(segment);
    var r := StripLeadingSpaces(segment);
    assert r[|Name|..] == segment[|segment| - |r|..][|Name|..];
  }

  /** For a record assembled from `;`-free segments, the parser sees exactly those segments. */
  lemma ParseJoined(segments: seq<string>)
    requires |segments| >= 1
    requires forall k :: 0 <= k < |segments| ==> ';' !in segments[k]
    ensures ParseIdToken(Some(Join(segments, ';'))) == FirstMatch(segments)
  {
    SplitJoin(segments, ';');
  }

  /** A run of spaces, `id_token=` and a value: the segment matches and yields the value. */
  lemma SpacedValue(spaces: string, value: string)
    requires forall i :: 0 <= i < |spaces| ==> spaces[i] == ' '
    ensures Matches(spaces + Name + value) && ValueOf(spaces + Name + value) == value
    ensures ';' !in value ==> ';' !in spaces + Name + value
  {
    var segment := spaces + Name + value;
    StripLeadingSpacesSpec(segment);
    assert ';' !in Name && ';' !in spaces;
    assert segment[|spaces|..] == Name + value;
    assert segment[|spaces|] == 'i';
    assert forall i :: 0 <= i < |spaces| ==> segment[i] == ' ';
    assert StripLeadingSpaces(segment) == segment[|spaces|..];
  }

  /**
   * However many cookies without the token come first, and however many
   * spaces precede it, the token is read back intact, whatever follows.
   * Together with ParseJoined this covers any record built from
   * `;`-free segments.
   */
  lemma TokenAfterOtherCookies(others: seq<string>, spaces: string, token: string, rest: seq<string>)
    requires forall k :: 0 <= k < |others| ==> !Matches(others[k])
    requires forall i :: 0 <= i < |spaces| ==> spaces[i] == ' '
    ensures FirstMatch(others + [spaces + Name + token] + rest) == token
  {
    var segment := spaces + Name + token;
    var segments := others + [segment] + rest;
    SpacedValue(spaces, token);
    assert segments[|others|] == segment;
    assert forall j :: 0 <= j < |others| ==> segments[j] == others[j];
    FirstMatchWins(segments, |others|);
  }

  /** Worked case: a name that merely ends in `id_token=` is not the token's. */
  lemma ExampleNotAtStart()
    ensures ParseIdToken(Some("my_id_token=x")) == ""
  {
    SplitFree("my_id_token=x", ';');
    assert !Matches("my_id_token=x");
  }

  // Round trip between the serialiser and the parser

  /** The text after the token does not change the token's own first piece. */
  lemma TokenHead(token: string, rest: string)
    ensures Split(token + [';'] + rest, ';')[0] == Split(token, ';')[0]
  {
    if ';' in token {
      SplitHeadAppend(token, [';'] + rest, ';');
      assert token + [';'] + rest == token + ([';'] + rest);
    } else {
      SplitSeparated(token, rest, ';');
      SplitFree(token, ';');
    }
  }

  /** The first segment of a stored record is `id_token=` and the token up to its first `;`. */
  lemma RecordHead(token: string, rest: string)
    ensures Split(Name + (token + [';'] + rest), ';')[0] == Name + Split(token, ';')[0]
  {
    assert ';' !in Name;
    SplitPrepend(Name, token + [';'] + rest, ';');
    TokenHead(token, rest);
  }

  /**
   * Reading back a stored record yields the token up to its first `;`, so
   * the whole token when it has none. The date text plays no part.
   */
  lemma RoundTrip(token: string, date: string)
    ensures ParseIdToken(Some(CookieString(token, date))) == Split(token, ';')[0]
    ensures ';' !in token ==> ParseIdToken(Some(CookieString(token, date))) == token
  {
    var rest := " expires=" + date + "; path=/;";
    assert "; expires=" == [';'] + " expires=";
    assert CookieString(token, date) == Name + (token + [';'] + rest);
    RecordHead(token, rest);
    var segment := Name + Split(token, ';')[0];
    assert segment[0] == 'i';
    assert Matches(segment) && ValueOf(segment) == Split(token, ';')[0];
    if ';' !in token {
      SplitFree(token, ';');
    }
  }

  /**
   * With no `;` in the token or the date, the stored record splits into
   * exactly its three attributes and the empty text after the final `;`.
   */
  lemma CookieSegments(token: string, date: string)
    requires ';' !in token && ';' !in date
    ensures Split(CookieString(token, date), ';')
         == [Name + token, " expires=" + date, " path=/", ""]
  {
    var a, b, c := Name + token, " expires=" + date, " path=/";
    assert ';' !in Name;
    assert CookieString(token, date) == a + [';'] + (b + [';'] + (c + [';'] + ""));
    SplitSeparated(a, b + [';'] + (c + [';'] + ""), ';');
    SplitSeparated(b, c + [';'] + "", ';');
    SplitSeparated(c, "", ';');
  }

  // Store-level scenarios

  /** Signing in and then reading gives back the token (up to its first `;`). */
  method SignInThenRead(doc: Document, user: AuthResponse, now: int, toUtcString: int -> string)
    returns (returned: string, read: string)
    modifies doc
    ensures returned == user.idToken
    ensures read == Split(user.idToken, ';')[0]
    ensures ';' !in user.idToken ==> read == user.idToken
  {
    returned := OnSignIn(doc, user, now, toUtcString);
    RoundTrip(user.idToken, toUtcString(ExpiryInstant(now, user.expiresIn)));
    read := GetIdToken(doc);
  }

  /** A second sign-in overwrites the first: only the second token can be read back. */
  method SignInTwice(doc: Document, first: AuthResponse, second: AuthResponse, now: int, later: int,
                     toUtcString: int -> string)
    returns (read: string)
    modifies doc
    ensures ';' !in second.idToken ==> read == second.idToken
    ensures doc.cookies == Some(CookieString(second.idToken, toUtcString(ExpiryInstant(later, second.expiresIn))))
  {
    var _ := OnSignIn(doc, first, now, toUtcString);
    var _ := OnSignIn(doc, second, later, toUtcString);
    RoundTrip(second.idToken, toUtcString(ExpiryInstant(later, second.expiresIn)));
    read := GetIdToken(doc);
  }
}
