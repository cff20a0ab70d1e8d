/** Signed URLs: signing, carrying the signature in a query string, and checking it
    (crates/lvqr-cli/src/signed_url.rs, crates/lvqr-cli/src/auth_middleware.rs, crates/lvqr-cli/src/archive.rs). */
module SignedUrl {
  import opened Bytes
  import opened Decimal
  import opened Text
  import Base64

  /** HMAC-SHA256 of a text under a secret; nothing else is known of it. */
  type Mac = (seq<byte>, string) -> seq<byte>

  ghost predicate Sha256Sized(mac: Mac) { forall secret, input :: |mac(secret, input)| == 32 }

  datatype Scheme = Hls | Dash

  function SchemeName(scheme: Scheme): string {
    match scheme case Hls => "hls" case Dash => "dash"
  }

  // ---------------------------------------------------------------- what is signed

  function WithExpiry(subject: string, exp: nat): string { subject + "?exp=" + Print(exp) }

  function LiveInput(scheme: Scheme, broadcast: string, exp: nat): string {
    WithExpiry(SchemeName(scheme) + ":" + broadcast, exp)
  }

  /** `path` is the path of the request, which starts with a slash. */
  function PlaybackInput(path: string, exp: nat): string { WithExpiry(path, exp) }

  /** Even when the subject holds "?exp=" itself. */
  lemma {:induction false} ExpiryIsLast(subject: string, exp: nat, subject': string, exp': nat)
    requires WithExpiry(subject, exp) == WithExpiry(subject', exp')
    ensures subject == subject' && exp == exp'
  {
    var s := WithExpiry(subject, exp);
    var n, n' := |Print(exp)|, |Print(exp')|;
    assert s[|s| - n..] == Print(exp) && s[|s| - n'..] == Print(exp');
    assert s[|s| - n - 1] == '=' && s[|s| - n' - 1] == '=';
    assert forall i :: |s| - n <= i < |s| ==> s[i] == Print(exp)[i - (|s| - n)];
    assert forall i :: |s| - n' <= i < |s| ==> s[i] == Print(exp')[i - (|s| - n')];
    ValueOfPrint(exp);
    ValueOfPrint(exp');
    assert s[..|s| - n - 5] == subject && s[..|s| - n' - 5] == subject';
  }

  /** The signed text determines scheme, broadcast and expiry, and no live text is a playback text. */
  lemma {:induction false} LiveInputInjective(scheme: Scheme, broadcast: string, exp: nat,
                                              scheme': Scheme, broadcast': string, exp': nat)
    requires LiveInput(scheme, broadcast, exp) == LiveInput(scheme', broadcast', exp')
    ensures scheme == scheme' && broadcast == broadcast' && exp == exp'
  {
    var subject, subject' := SchemeName(scheme) + ":" + broadcast, SchemeName(scheme') + ":" + broadcast';
    ExpiryIsLast(subject, exp, subject', exp');
    assert subject[0] == SchemeName(scheme)[0] && subject'[0] == SchemeName(scheme')[0];
    var n := |SchemeName(scheme)| + 1;
    assert subject[n..] == broadcast && subject'[n..] == broadcast';
  }

  lemma LiveIsNotPlayback(scheme: Scheme, broadcast: string, exp: nat, path: string, exp': nat)
    requires path != [] && path[0] == '/'
    ensures LiveInput(scheme, broadcast, exp) != PlaybackInput(path, exp')
  {
    assert LiveInput(scheme, broadcast, exp)[0] == SchemeName(scheme)[0];
    assert PlaybackInput(path, exp')[0] == '/';
  }

  // ---------------------------------------------------------------- signing and checking

  function Signature(mac: Mac, secret: seq<byte>, input: string): string { Base64.Encode(mac(secret, input)) }

  function SignLive(mac: Mac, secret: seq<byte>, scheme: Scheme, broadcast: string, exp: nat): string {
    "exp=" + Print(exp) + "&sig=" + Signature(mac, secret, LiveInput(scheme, broadcast, exp))
  }

  datatype Check = NotAttempted | Allow | Deny(reason: string)

  function Verify(mac: Mac, secret: Option<seq<byte>>, input: string, sig: Option<string>, exp: Option<nat>,
                  now: nat): Check
  {
    if secret.None? || sig.None? || exp.None? then NotAttempted
    else if exp.value <= now then Deny("signed URL expired")
    else match Base64.Decode(sig.value)
      case None => Deny("signed URL malformed")
      case Some(provided) =>
        if provided == mac(secret.value, input) then Allow else Deny("signed URL signature invalid")
  }

  function VerifyLive(mac: Mac, secret: Option<seq<byte>>, scheme: Scheme, broadcast: string,
                      sig: Option<string>, exp: Option<nat>, now: nat): Check
  {
    if sig.None? || exp.None? then NotAttempted
    else Verify(mac, secret, LiveInput(scheme, broadcast, exp.value), sig, exp, now)
  }

  function VerifyPlayback(mac: Mac, secret: Option<seq<byte>>, path: string,
                          sig: Option<string>, exp: Option<nat>, now: nat): Check
  {
    Verify(mac, secret, if exp.Some? then PlaybackInput(path, exp.value) else "", sig, exp, now)
  }

  /** One text is accepted, before its expiry, and it is the signature itself. */
  lemma {:induction false} VerifyIff(mac: Mac, secret: Option<seq<byte>>, input: string,
                                     sig: Option<string>, exp: Option<nat>, now: nat)
    ensures Verify(mac, secret, input, sig, exp, now) == Allow <==>
              secret.Some? && sig.Some? && exp.Some? && exp.value > now
              && sig.value == Signature(mac, secret.value, input)
    ensures Verify(mac, secret, input, sig, exp, now) == NotAttempted <==> secret.None? || sig.None? || exp.None?
    ensures Verify(mac, secret, input, sig, exp, now) == Deny("signed URL expired") <==>
              secret.Some? && sig.Some? && exp.Some? && exp.value <= now
    ensures Verify(mac, secret, input, sig, exp, now) == Deny("signed URL malformed") <==>
              secret.Some? && sig.Some? && exp.Some? && exp.value > now && !IsBase64(sig.value)
  {
    assert |"signed URL expired"| == 18 && |"signed URL malformed"| == 20 && |"signed URL signature invalid"| == 28;
    if secret.Some? && sig.Some? {
      Base64.DecodeEncode(mac(secret.value, input));
      IsBase64Iff(sig.value);
      if Base64.Decode(sig.value).Some? {
        Base64.EncodeDecode(sig.value);
      }
    }
    hide Base64.Encode, Base64.Decode, IsBase64;
  }

  ghost predicate IsBase64(text: string) { exists bytes :: text == Base64.Encode(bytes) }

  lemma IsBase64Iff(text: string)
    ensures IsBase64(text) <==> Base64.Decode(text).Some?
  {
    hide Base64.Encode, Base64.Decode;
    if bytes :| text == Base64.Encode(bytes) {
      Base64.DecodeEncode(bytes);
    }
    if Base64.Decode(text).Some? {
      Base64.EncodeDecode(text);
    }
  }

  /** A playback signature opens the path it was made for until it expires, and any other path, or the same one with
      another expiry, only where the MAC collides. */
  lemma {:induction false} PlaybackOpensIff(mac: Mac, secret: seq<byte>, path: string, exp: nat, path': string,
                                            exp': nat, now: nat)
    ensures var signed, asked := path + "?exp=" + Print(exp), path' + "?exp=" + Print(exp');
            VerifyPlayback(mac, Some(secret), path', Some(Base64.Encode(mac(secret, signed))), Some(exp'), now)
            == Allow <==>
              exp' > now && ((path' == path && exp' == exp) || Collides(mac, secret, signed, asked))
  {
    var signed, asked := path + "?exp=" + Print(exp), path' + "?exp=" + Print(exp');
    Base64.DecodeEncode(mac(secret, signed));
    hide Base64.Encode, Base64.Decode, Print;
    assert PlaybackInput(path, exp) == signed && PlaybackInput(path', exp') == asked;
    if signed == asked {
      ExpiryIsLast(path, exp, path', exp');
    }
  }

  /** A signature opens what it was made for; on any other scheme, broadcast or expiry, or on a playback path, it
      could only pass where the MAC collides. */
  lemma {:induction false} SignatureIsScoped(mac: Mac, secret: seq<byte>, scheme: Scheme, broadcast: string, exp: nat,
                                             scheme': Scheme, broadcast': string, exp': nat, path: string, now: nat)
    requires path != [] && path[0] == '/'
    ensures var sig := Some(Signature(mac, secret, LiveInput(scheme, broadcast, exp)));
            VerifyLive(mac, Some(secret), scheme', broadcast', sig, Some(exp'), now) == Allow ==>
              exp' > now && ((scheme', broadcast', exp') == (scheme, broadcast, exp)
                             || Collides(mac, secret, LiveInput(scheme, broadcast, exp),
                                         LiveInput(scheme', broadcast', exp')))
    ensures var sig := Some(Signature(mac, secret, LiveInput(scheme, broadcast, exp)));
            VerifyPlayback(mac, Some(secret), path, sig, Some(exp'), now) == Allow ==>
              Collides(mac, secret, LiveInput(scheme, broadcast, exp), PlaybackInput(path, exp'))
    ensures var sig := Some(Signature(mac, secret, LiveInput(scheme, broadcast, exp)));
            VerifyLive(mac, Some(secret), scheme, broadcast, sig, Some(exp), now) == Allow <==> exp > now
  {
    var input := LiveInput(scheme, broadcast, exp);
    var sig := Some(Signature(mac, secret, input));
    Base64.DecodeEncode(mac(secret, input));
    hide LiveInput, PlaybackInput, Base64.Encode, Base64.Decode;
    if LiveInput(scheme', broadcast', exp') == input {
      LiveInputInjective(scheme, broadcast, exp, scheme', broadcast', exp');
    }
    LiveIsNotPlayback(scheme, broadcast, exp, path, exp');
  }

  ghost predicate Collides(mac: Mac, secret: seq<byte>, a: string, b: string) {
    a != b && mac(secret, a) == mac(secret, b)
  }

  // ---------------------------------------------------------------- the query string

  function FirstValue(pieces: seq<string>, key: string): Option<string> {
    if pieces == [] then None
    else match SplitOnce(pieces[0], '=')
      case Some((k, v)) => if k == key && v != [] then Some(v) else FirstValue(pieces[1..], key)
      case None => FirstValue(pieces[1..], key)
  }

  function ExtractQueryParam(query: string, key: string): Option<string> {
    FirstValue(Split(query, '&'), key)
  }

  predicate KeyedBy(piece: string, key: string) { key + "=" <= piece }

  /** The parameter has that key, and a value. */
  predicate HasValue(piece: string, key: string) { key + "=" <= piece && |piece| > |key| + 1 }

  /** The first parameter of that key with any value has this one. */
  ghost predicate FirstHas(pieces: seq<string>, key: string, value: string) {
    value != [] && exists i :: 0 <= i < |pieces| && HasFirstAt(pieces, key, value, i)
  }

  ghost predicate HasFirstAt(pieces: seq<string>, key: string, value: string, i: nat)
    requires i < |pieces|
  {
    pieces[i] == key + "=" + value && forall j :: 0 <= j < i ==> !HasValue(pieces[j], key)
  }

  lemma ValueOfPiece(piece: string, key: string)
    requires '=' !in key
    ensures HasValue(piece, key) <==>
              SplitOnce(piece, '=').Some? && SplitOnce(piece, '=').value.0 == key && SplitOnce(piece, '=').value.1 != []
    ensures HasValue(piece, key) ==> piece == key + "=" + SplitOnce(piece, '=').value.1
  {
    if HasValue(piece, key) {
      var value := piece[|key| + 1..];
      assert piece == key + "=" + value;
      SplitsAtFirst(key, '=', value);
    }
  }

  /** The extractor finds exactly the first non-empty value of the key: parameters with other keys, or with that key and
      no value, are passed over. */
  lemma {:induction false} FirstValueIff(pieces: seq<string>, key: string, value: string)
    requires '=' !in key
    ensures FirstValue(pieces, key) == Some(value) <==> FirstHas(pieces, key, value)
    decreases |pieces|
  {
    if pieces != [] {
      ValueOfPiece(pieces[0], key);
      FirstValueIff(pieces[1..], key, value);
      FirstHasUnfolds(pieces, key, value);
      SameValue(key, value, pieces[0]);
      hide FirstHas, HasValue;
    }
  }

  lemma SameValue(key: string, value: string, piece: string)
    requires '=' !in key
    ensures piece == key + "=" + value <==>
              SplitOnce(piece, '=').Some? && SplitOnce(piece, '=').value == (key, value)
  {
    SplitsAtFirst(key, '=', value);
  }

  lemma FirstHasUnfolds(pieces: seq<string>, key: string, value: string)
    requires pieces != []
    ensures FirstHas(pieces, key, value) <==>
              if HasValue(pieces[0], key) then value != [] && pieces[0] == key + "=" + value
              else FirstHas(pieces[1..], key, value)
  {
    if HasValue(pieces[0], key) {
      assert value != [] && pieces[0] == key + "=" + value ==> HasFirstAt(pieces, key, value, 0);
    } else {
      if i :| value != [] && 0 <= i < |pieces| && HasFirstAt(pieces, key, value, i) {
        assert HasValue(key + "=" + value, key);
        assert HasFirstAt(pieces[1..], key, value, i - 1);
      }
      if i :| value != [] && 0 <= i < |pieces[1..]| && HasFirstAt(pieces[1..], key, value, i) {
        assert forall j :: 1 <= j <= i ==> pieces[j] == pieces[1..][j - 1];
        assert HasFirstAt(pieces, key, value, i + 1);
      }
    }
  }

  lemma {:induction false} SkipsOtherKeys(before: seq<string>, key: string, value: string, after: seq<string>)
    requires forall i :: 0 <= i < |before| ==> !KeyedBy(before[i], key)
    requires '=' !in key && value != []
    ensures FirstValue(before + [key + "=" + value] + after, key) == Some(value)
  {
    var pieces := before + [key + "=" + value] + after;
    if before == [] {
      SplitsAtFirst(key, '=', value);
    } else {
      assert pieces[1..] == before[1..] + [key + "=" + value] + after;
      SkipsOtherKeys(before[1..], key, value, after);
      assert !KeyedBy(before[0], key);
    }
  }

  // ---------------------------------------------------------------- the whole gate

  /** The broadcast of a live path: everything between the prefix and the last slash. */
  function ExtractBroadcast(path: string): Option<string> {
    var rest := if StripPrefix(path, "/hls/").Some? then StripPrefix(path, "/hls/") else StripPrefix(path, "/dash/");
    if rest.None? then None
    else match RSplitOnce(rest.value, '/')
      case None => None
      case Some((broadcast, tail)) => if broadcast == [] || tail == [] then None else Some(broadcast)
  }

  /** The signed-URL half of `live_playback_auth_middleware`. */
  function LiveGate(mac: Mac, secret: Option<seq<byte>>, scheme: Scheme, path: string, query: string, now: nat): Check {
    var broadcast := ExtractBroadcast(path);
    if broadcast.None? || secret.None? then NotAttempted
    else
      var text := ExtractQueryParam(query, "exp");
      var exp := if text.Some? then Parse(text.value, U64_MAX) else None;
      VerifyLive(mac, secret, scheme, broadcast.value, ExtractQueryParam(query, "sig"), exp, now)
  }

  lemma LivePath(scheme: Scheme, broadcast: string, tail: string)
    requires broadcast != [] && tail != [] && '/' !in tail
    ensures ExtractBroadcast("/" + SchemeName(scheme) + "/" + broadcast + "/" + tail) == Some(broadcast)
  {
    var rest := broadcast + ['/'] + tail;
    var path := "/" + SchemeName(scheme) + "/" + broadcast + "/" + tail;
    var prefix := "/" + SchemeName(scheme) + "/";
    assert path == prefix + rest;
    PrefixDecides(scheme, rest);
    SplitsAtLast(broadcast, '/', tail);
    hide SchemeName, StripPrefix;
  }

  lemma PrefixDecides(scheme: Scheme, rest: string)
    ensures var path := "/" + SchemeName(scheme) + "/" + rest;
            if scheme.Hls? then StripPrefix(path, "/hls/") == Some(rest)
            else StripPrefix(path, "/hls/") == None && StripPrefix(path, "/dash/") == Some(rest)
  {
    var path := "/" + SchemeName(scheme) + "/" + rest;
    assert path[1] == SchemeName(scheme)[0];
    assert "/" + "hls" + "/" == "/hls/" && "/" + "dash" + "/" == "/dash/";
    assert "/hls/"[1] == 'h';
  }

  /** The path of a URL under that broadcast's tree, one level down. */
  ghost predicate LivePathOf(path: string, broadcast: string, tail: string) {
    broadcast != [] && tail != [] && '/' !in tail
    && (path == "/hls/" + broadcast + "/" + tail || path == "/dash/" + broadcast + "/" + tail)
  }

  /** A path has a broadcast exactly when it is of that shape, and then that one: with both prefixes at either router,
      and never an empty one. */
  lemma {:induction false} ExtractBroadcastIff(path: string, broadcast: string)
    ensures ExtractBroadcast(path) == Some(broadcast) <==> exists tail :: LivePathOf(path, broadcast, tail)
  {
    if tail :| LivePathOf(path, broadcast, tail) {
      PathIsRead(path, broadcast, tail);
    }
    if ExtractBroadcast(path) == Some(broadcast) {
      var tail := ReadPathIsLive(path);
    }
  }

  lemma ReadPathIsLive(path: string) returns (tail: string)
    requires ExtractBroadcast(path).Some?
    ensures LivePathOf(path, ExtractBroadcast(path).value, tail)
  {
    var hls, broadcast := StripPrefix(path, "/hls/"), ExtractBroadcast(path).value;
    var rest := if hls.Some? then hls.value else StripPrefix(path, "/dash/").value;
    tail := RSplitOnce(rest, '/').value.1;
    assert broadcast != [] && tail != [] && '/' !in tail && rest == broadcast + ['/'] + tail;
    if hls.Some? {
      assert path == "/hls/" + rest;
    } else {
      assert path == "/dash/" + rest;
    }
    hide StripPrefix, RSplitOnce, ExtractBroadcast;
    Regrouped("/hls/", broadcast, tail);
    Regrouped("/dash/", broadcast, tail);
  }

  lemma Regrouped(prefix: string, broadcast: string, tail: string)
    ensures prefix + (broadcast + ['/'] + tail) == prefix + broadcast + "/" + tail
  {
  }

  lemma PathIsRead(path: string, broadcast: string, tail: string)
    requires LivePathOf(path, broadcast, tail)
    ensures ExtractBroadcast(path) == Some(broadcast)
  {
    var scheme := if path == "/hls/" + broadcast + "/" + tail then Hls else Dash;
    assert "/" + SchemeName(scheme) + "/" == if scheme == Hls then "/hls/" else "/dash/";
    assert path == "/" + SchemeName(scheme) + "/" + broadcast + "/" + tail;
    hide ExtractBroadcast;
    LivePath(scheme, broadcast, tail);
  }

  /** What is signed for a live broadcast, and what the suffix says, letter by letter. */
  lemma WireFormat(mac: Mac, secret: seq<byte>, broadcast: string, exp: nat)
    ensures LiveInput(Hls, broadcast, exp) == "hls:" + broadcast + "?exp=" + Print(exp)
    ensures LiveInput(Dash, broadcast, exp) == "dash:" + broadcast + "?exp=" + Print(exp)
    ensures SignLive(mac, secret, Hls, broadcast, exp)
            == "exp=" + Print(exp) + "&sig=" + Base64.Encode(mac(secret, "hls:" + broadcast + "?exp=" + Print(exp)))
    ensures SignLive(mac, secret, Dash, broadcast, exp)
            == "exp=" + Print(exp) + "&sig=" + Base64.Encode(mac(secret, "dash:" + broadcast + "?exp=" + Print(exp)))
  {
    hide Print, Base64.Encode;
    assert "hls" + ":" + broadcast == "hls:" + broadcast && "dash" + ":" + broadcast == "dash:" + broadcast;
  }

  /** Exactly what passes the gate, over all paths and queries: the path is one level under a broadcast, the first "exp"
      with a value is a number that is still to come, and the first "sig" with a value is the signature of the scheme,
      that broadcast and that number under the secret there is. */
  lemma {:induction false} LiveGateAllowsIff(mac: Mac, secret: Option<seq<byte>>, scheme: Scheme, path: string,
                                             query: string, now: nat)
    ensures LiveGate(mac, secret, scheme, path, query, now) == Allow <==>
              secret.Some? && exists broadcast, tail, text, exp: u64 ::
                LivePathOf(path, broadcast, tail) && FirstHas(Split(query, '&'), "exp", text)
                && Parse(text, U64_MAX) == Some(exp) && exp > now
                && FirstHas(Split(query, '&'), "sig", Signature(mac, secret.value, LiveInput(scheme, broadcast, exp)))
  {
    hide LiveInput, Signature, Parse, FirstHas, LivePathOf, FirstValue, Split, ExtractBroadcast;
    forall broadcast
      ensures ExtractBroadcast(path) == Some(broadcast) <==> exists tail :: LivePathOf(path, broadcast, tail)
    {
      ExtractBroadcastIff(path, broadcast);
    }
    forall value
      ensures ExtractQueryParam(query, "exp") == Some(value) <==> FirstHas(Split(query, '&'), "exp", value)
      ensures ExtractQueryParam(query, "sig") == Some(value) <==> FirstHas(Split(query, '&'), "sig", value)
    {
      FirstValueIff(Split(query, '&'), "exp", value);
      FirstValueIff(Split(query, '&'), "sig", value);
    }
    GateAllows(mac, secret, scheme, path, query, now);
    hide ExtractQueryParam, LiveGate;
  }

  lemma GateAllows(mac: Mac, secret: Option<seq<byte>>, scheme: Scheme, path: string, query: string, now: nat)
    ensures LiveGate(mac, secret, scheme, path, query, now) == Allow <==>
              secret.Some? && exists broadcast, text, exp: u64 ::
                ExtractBroadcast(path) == Some(broadcast) && ExtractQueryParam(query, "exp") == Some(text)
                && Parse(text, U64_MAX) == Some(exp) && exp > now
                && ExtractQueryParam(query, "sig")
                   == Some(Signature(mac, secret.value, LiveInput(scheme, broadcast, exp)))
  {
    var broadcast, sig := ExtractBroadcast(path), ExtractQueryParam(query, "sig");
    var text := ExtractQueryParam(query, "exp");
    var exp := if text.Some? then Parse(text.value, U64_MAX) else None;
    if exp.Some? {
      ParsedFits(text.value);
    }
    hide ExtractBroadcast, ExtractQueryParam, Parse, LiveInput, Signature, Verify;
    if broadcast.Some? && exp.Some? {
      VerifyIff(mac, secret, LiveInput(scheme, broadcast.value, exp.value), sig, exp, now);
    }
  }

  lemma ParsedFits(text: string)
    requires Parse(text, U64_MAX).Some?
    ensures Parse(text, U64_MAX).value <= U64_MAX
  {
  }

  lemma SignedPieces(mac: Mac, secret: seq<byte>, scheme: Scheme, broadcast: string, exp: nat)
    ensures var sig := Signature(mac, secret, LiveInput(scheme, broadcast, exp));
            SignLive(mac, secret, scheme, broadcast, exp) == Join(["exp=" + Print(exp), "sig=" + sig], '&')
            && Unjoined(["exp=" + Print(exp), "sig=" + sig])
  {
    var sig := Signature(mac, secret, LiveInput(scheme, broadcast, exp));
    assert forall i :: 0 <= i < |sig| ==> Base64.InAlphabet(sig[i]);
    assert "exp=" + Print(exp) + "&sig=" + sig == ("exp=" + Print(exp)) + ['&'] + ("sig=" + sig);
  }

  predicate Foreign(pieces: seq<string>) {
    forall i :: 0 <= i < |pieces| ==> !KeyedBy(pieces[i], "exp") && !KeyedBy(pieces[i], "sig")
  }

  predicate Unjoined(pieces: seq<string>) { forall i :: 0 <= i < |pieces| ==> '&' !in pieces[i] }

  lemma PiecesYield(before: seq<string>, expText: string, sig: string, after: seq<string>)
    requires expText != [] && sig != [] && Foreign(before)
    ensures FirstValue(before + ["exp=" + expText, "sig=" + sig] + after, "exp") == Some(expText)
    ensures FirstValue(before + ["exp=" + expText, "sig=" + sig] + after, "sig") == Some(sig)
  {
    var e, s := "exp=" + expText, "sig=" + sig;
    assert "exp=" == "exp" + "=" && "sig=" == "sig" + "=";
    assert e[0] == 'e' && ("sig" + "=")[0] == 's';
    hide FirstValue;
    SkipsOtherKeys(before, "exp", expText, [s] + after);
    assert Foreign(before) && !KeyedBy(e, "sig");
    SkipsOtherKeys(before + [e], "sig", sig, after);
    hide KeyedBy, Foreign;
    assert before + [e, s] + after == before + [e] + ([s] + after);
    assert before + [e, s] + after == (before + [e]) + [s] + after;
  }

  lemma QueryYields(before: seq<string>, expText: string, sig: string, after: seq<string>)
    requires expText != [] && sig != [] && Unjoined(["exp=" + expText, "sig=" + sig])
    requires Unjoined(before) && Foreign(before) && Unjoined(after)
    ensures var query := Join(before + ["exp=" + expText, "sig=" + sig] + after, '&');
            ExtractQueryParam(query, "exp") == Some(expText) && ExtractQueryParam(query, "sig") == Some(sig)
  {
    PiecesYield(before, expText, sig, after);
    hide FirstValue, Foreign, Split, Join;
    SplitJoin(before + ["exp=" + expText, "sig=" + sig] + after, '&');
  }

  /** A query that carries the suffix signed for (scheme, broadcast, exp) among other parameters. */
  function Carrying(mac: Mac, secret: seq<byte>, scheme: Scheme, broadcast: string, exp: nat, before: seq<string>,
                    after: seq<string>): string
  {
    Join(before + Split(SignLive(mac, secret, scheme, broadcast, exp), '&') + after, '&')
  }

  lemma SuffixIsRead(mac: Mac, secret: seq<byte>, scheme: Scheme, broadcast: string, exp: u64,
                     before: seq<string>, after: seq<string>)
    requires Sha256Sized(mac) && Unjoined(before) && Foreign(before) && Unjoined(after)
    ensures var query := Carrying(mac, secret, scheme, broadcast, exp, before, after);
            ExtractQueryParam(query, "exp") == Some(Print(exp)) && Parse(Print(exp), U64_MAX) == Some(exp)
            && ExtractQueryParam(query, "sig") == Some(Signature(mac, secret, LiveInput(scheme, broadcast, exp)))
  {
    var sig := Signature(mac, secret, LiveInput(scheme, broadcast, exp));
    SignedPieces(mac, secret, scheme, broadcast, exp);
    SplitJoin(["exp=" + Print(exp), "sig=" + sig], '&');
    QueryYields(before, Print(exp), sig, after);
    ParsePrint(exp, U64_MAX);
  }

  lemma SignatureOfOther(mac: Mac, secret: seq<byte>, signed: string, asked: string, exp: nat, now: nat)
    ensures Verify(mac, Some(secret), asked, Some(Signature(mac, secret, signed)), Some(exp), now)
            == if exp <= now then Deny("signed URL expired")
               else if mac(secret, asked) == mac(secret, signed) then Allow
               else Deny("signed URL signature invalid")
  {
    Base64.DecodeEncode(mac(secret, signed));
    hide Base64.Decode, Base64.Encode;
  }

  /** What a signed suffix does on every path, at either router: where the path holds no broadcast it is no signed
      request; past its expiry it is refused; otherwise it opens the path exactly when the MAC of what the path asks
      for is the one that was signed. */
  lemma {:induction false} SuffixOpensIff(mac: Mac, secret: seq<byte>, scheme: Scheme, broadcast: string, exp: u64,
                                          router: Scheme, path: string, before: seq<string>, after: seq<string>,
                                          now: nat)
    requires Sha256Sized(mac) && Unjoined(before) && Foreign(before) && Unjoined(after)
    ensures var asked := ExtractBroadcast(path);
            var signed := LiveInput(scheme, broadcast, exp);
            LiveGate(mac, Some(secret), router, path,
                     Carrying(mac, secret, scheme, broadcast, exp, before, after), now)
            == if asked.None? then NotAttempted
               else if exp <= now then Deny("signed URL expired")
               else if mac(secret, LiveInput(router, asked.value, exp)) == mac(secret, signed) then Allow
               else Deny("signed URL signature invalid")
  {
    var asked := ExtractBroadcast(path);
    SuffixIsRead(mac, secret, scheme, broadcast, exp, before, after);
    if asked.Some? {
      SignatureOfOther(mac, secret, LiveInput(scheme, broadcast, exp), LiveInput(router, asked.value, exp), exp, now);
    }
    hide LiveInput, ExtractBroadcast, ExtractQueryParam, Parse, Carrying, Verify, Signature, Print;
  }

  /** One suffix opens every URL one level under the broadcast until it expires, wherever it stands among other query
      parameters. */
  lemma {:induction false} SignedSuffixOpensTree(mac: Mac, secret: seq<byte>, scheme: Scheme, broadcast: string,
                                                 exp: u64, tail: string, before: seq<string>, after: seq<string>,
                                                 now: nat)
    requires Sha256Sized(mac) && broadcast != [] && tail != [] && '/' !in tail
    requires Unjoined(before) && Foreign(before) && Unjoined(after)
    ensures LiveGate(mac, Some(secret), scheme, "/" + SchemeName(scheme) + "/" + broadcast + "/" + tail,
                     Carrying(mac, secret, scheme, broadcast, exp, before, after), now)
            == if exp > now then Allow else Deny("signed URL expired")
  {
    LivePath(scheme, broadcast, tail);
    SuffixOpensIff(mac, secret, scheme, broadcast, exp, scheme,
                   "/" + SchemeName(scheme) + "/" + broadcast + "/" + tail, before, after, now);
    hide LiveGate, LiveInput, Carrying;
  }

  /** Any deeper URL under the broadcast is refused, unless the MAC collides: the gate takes all but the last part of
      the path for the broadcast. */
  lemma {:induction false} DeeperUrlsAreRefused(mac: Mac, secret: seq<byte>, scheme: Scheme, broadcast: string,
                                                exp: u64, dir: string, tail: string, before: seq<string>,
                                                after: seq<string>, now: nat)
    requires Sha256Sized(mac) && broadcast != [] && tail != [] && '/' !in tail
    requires Unjoined(before) && Foreign(before) && Unjoined(after)
    ensures var deeper := broadcast + "/" + dir;
            LiveGate(mac, Some(secret), scheme, "/" + SchemeName(scheme) + "/" + deeper + "/" + tail,
                     Carrying(mac, secret, scheme, broadcast, exp, before, after), now) == Allow <==>
              exp > now && Collides(mac, secret, LiveInput(scheme, deeper, exp), LiveInput(scheme, broadcast, exp))
  {
    var deeper := broadcast + "/" + dir;
    LivePath(scheme, deeper, tail);
    SuffixOpensIff(mac, secret, scheme, broadcast, exp, scheme,
                   "/" + SchemeName(scheme) + "/" + deeper + "/" + tail, before, after, now);
    hide LiveGate, LiveInput, Carrying;
    assert |deeper| > |broadcast|;
    if LiveInput(scheme, deeper, exp) == LiveInput(scheme, broadcast, exp) {
      LiveInputInjective(scheme, deeper, exp, scheme, broadcast, exp);
    }
  }
}
