/** The API-key guard of the administrative endpoints: a request is let
    through when its `x-api-key` header is the admin key or the private key of
    some moderator, and refused with 403 otherwise. */
module ApiKey {
  import opened Common

  const InvalidApiKey := HttpError(403, "Invalid API key")

  /** `get_api_key`. `adminKey` is the `ADMIN_API_KEY` environment variable,
      `None` when unset; `moderatorKeys` is the `private_key` column of the
      moderator table. */
  function GetApiKey(header: string, adminKey: Option<string>, moderatorKeys: set<string>): (r: Result<bool>)
    ensures r.Success? <==> (adminKey.Some? && adminKey.value == header) || header in moderatorKeys
    ensures r.Success? ==> r.value
    ensures r.Failure? ==> r.error == InvalidApiKey
  {
    if adminKey == Some(header) then Success(true)
    else if header in moderatorKeys then Success(true)
    else Failure(InvalidApiKey)
  }

  /** The admin key is accepted whatever the moderator table holds. */
  lemma AdminKeyIgnoresModerators(header: string, m1: set<string>, m2: set<string>)
    ensures GetApiKey(header, Some(header), m1) == GetApiKey(header, Some(header), m2) == Success(true)
  {
  }

  /** With no admin key configured, only moderator keys are accepted. */
  lemma UnsetAdminKey(header: string, moderatorKeys: set<string>)
    ensures GetApiKey(header, None, moderatorKeys).Success? <==> header in moderatorKeys
  {
  }
}
