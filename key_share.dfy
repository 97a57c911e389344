/** The key-sharing panel: the link it copies to share the user's public
    key, and the manual entry of the other user's key, which is trimmed,
    checked to be base64 and then handed to the chat window. */
module KeyShare {
  import opened Wrappers
  import opened JsString
  import Base64
  import Uri

  const EnterKeyMessage := "Please enter a public key"
  const InvalidFormatMessage := "Invalid public key format. " + "Please check and try again."

  /** The name of the query parameter that carries the key. */
  const KeyParameter := "key"

  /** The shareable link for `myPublicKey` under the page's origin and path;
      `None` when there is no public key yet. */
  function ShareLink(origin: string, pathname: string, myPublicKey: Option<string>): (r: Option<string>)
    ensures r.Some? <==> Truthy(myPublicKey)
  {
    if !Truthy(myPublicKey) then None
    else Some(origin + pathname + "?" + KeyParameter + "=" + Uri.EncodeUriComponent(myPublicKey.value))
  }

  /** The query string of a link: everything from its first `?`. */
  function Search(url: string): string
    decreases |url|
  {
    if |url| == 0 then [] else if url[0] == '?' then url else Search(url[1..])
  }

  lemma {:induction false} SearchAfterPrefix(prefix: string, rest: string)
    requires '?' !in prefix
    ensures Search(prefix + rest) == Search(rest)
    decreases |prefix|
  {
    if |prefix| > 0 {
      SearchAfterPrefix(prefix[1..], rest);
      assert (prefix + rest)[1..] == prefix[1..] + rest;
    } else {
      assert prefix + rest == rest;
    }
  }

  /** Whoever opens a shared link reads the sender's key back from its
      `key` parameter, exactly as it was, provided the origin and path carry
      no `?` (a location's origin and pathname never do). */
  lemma ShareLinkCarriesKey(origin: string, pathname: string, myPublicKey: string)
    requires myPublicKey != "" && '?' !in origin + pathname
    ensures var link := ShareLink(origin, pathname, Some(myPublicKey));
            link.Some? && Uri.SearchParam(Search(link.value), KeyParameter) == Some(myPublicKey)
  {
    var e := Uri.EncodeUriComponent(myPublicKey);
    var rest := "?" + KeyParameter + "=" + e;
    assert origin + pathname + "?" + KeyParameter + "=" + e == (origin + pathname) + rest;
    SearchAfterPrefix(origin + pathname, rest);
    KeyParameterUnescaped();
    Uri.SearchParamOfEncoded(KeyParameter, myPublicKey);
  }

  /** The parameter name is made of unreserved characters only. */
  lemma KeyParameterUnescaped()
    ensures Uri.EncodeUriComponent(KeyParameter) == KeyParameter
  {
    assert KeyParameter == ['k'] + ['e'] + ['y'];
    assert Uri.EncodeUriComponent(KeyParameter[2..]) == ['y'];
    assert Uri.EncodeUriComponent(KeyParameter[1..]) == ['e', 'y'];
  }

  /** The entry `handleSubmitKey` accepts: non-blank after trimming, and
      `atob` does not throw on the trimmed text. */
  predicate Accepts(input: string) {
    Trim(input) != [] && Base64.Atob(Trim(input)).Some?
  }

  class KeySharePanel {
    var inputKey: string
    var keyError: string
    var showInput: bool

    constructor ()
      ensures inputKey == "" && keyError == "" && !showInput
    {
      inputKey := "";
      keyError := "";
      showInput := false;
    }

    /** `handleSubmitKey`: the trimmed entry is forwarded to the chat window
        (the out-parameter) and the field closes, or an error is shown and
        the entry stays as typed. */
    method SubmitKey() returns (forwarded: Option<string>)
      modifies this
      ensures forwarded == if Accepts(old(inputKey)) then Some(Trim(old(inputKey))) else None
      ensures Trim(old(inputKey)) == [] ==> keyError == EnterKeyMessage
      ensures Trim(old(inputKey)) != [] && !Accepts(old(inputKey)) ==> keyError == InvalidFormatMessage
      ensures Accepts(old(inputKey)) ==> keyError == "" && inputKey == "" && !showInput
      ensures !Accepts(old(inputKey)) ==> inputKey == old(inputKey) && showInput == old(showInput)
    {
      keyError := "";
      var trimmedKey := Trim(inputKey);
      if trimmedKey == [] {
        keyError := EnterKeyMessage;
        return None;
      }
      if Base64.Atob(trimmedKey).None? {
        keyError := InvalidFormatMessage;
        return None;
      }
      forwarded := Some(trimmedKey);
      inputKey := "";
      showInput := false;
    }
  }

  /** A key that was forwarded passes the check again unchanged, so
      resubmitting it forwards the same text. */
  lemma ForwardedKeyIsStable(input: string)
    requires Accepts(input)
    ensures Accepts(Trim(input)) && Trim(Trim(input)) == Trim(input)
  {
    TrimIdempotent(input);
  }

  /** Any exported key, the base64 of a non-empty byte string, is accepted
      as typed. */
  lemma ExportedKeyAccepted(spki: seq<byte>)
    requires |spki| > 0
    ensures Accepts(Base64.Encode(spki)) && Trim(Base64.Encode(spki)) == Base64.Encode(spki)
  {
    var s := Base64.Encode(spki);
    assert s[0] != '=';
    TrimOfTrimmed(s);
    Base64.DecodeEncode(spki);
  }

  /** A blank entry is never forwarded. */
  lemma BlankEntryRejected(input: string)
    requires forall k :: 0 <= k < |input| ==> IsWhitespace(input[k])
    ensures !Accepts(input)
  {
    TrimEmptyIff(input);
  }
}
