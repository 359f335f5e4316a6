/**
 * The base URL the HTTP client is created with. The build-time variable
 * `VITE_API_URL` is a parameter: `None` when it is not set.
 */
module ApiConfig {
  import opened Wrappers
  import opened Strings

  const ApiSuffix := "/api/v1"

  /** A text that has been glued in front of `t` ends with `t`. */
  lemma EndsWithAppend(u: string, t: string)
    ensures EndsWith(u + t, t)
  {
    assert (u + t)[|u|..] == t;
  }

  /** `u + "api/v1"` for a `u` that ends with `/` is `u` without that `/`, then the suffix. */
  lemma SlashThenRest(u: string)
    requires EndsWith(u, "/")
    ensures u + "api/v1" == u[..|u| - 1] + ApiSuffix
  {
    assert u == u[..|u| - 1] + "/";
    assert "/" + "api/v1" == ApiSuffix;
    assert u + "api/v1" == u[..|u| - 1] + ("/" + "api/v1");
  }

  /**
   * `getBaseUrl()`: the same-origin proxy path when the variable is unset or
   * empty, the variable itself when it already ends in `/api/v1`, and
   * otherwise the variable with `api/v1` or `/api/v1` appended, depending on
   * whether it ends in `/`.
   */
  function BaseUrl(env: Option<string>): (r: string)
    ensures EndsWith(r, ApiSuffix)
    ensures env.Some? && env.value != "" ==> |env.value| <= |r| && r[..|env.value|] == env.value
    ensures env.None? || env.value == "" ==> r == ApiSuffix
  {
    match env
    case None => ApiSuffix
    case Some(u) =>
      if u == "" then ApiSuffix
      else if EndsWith(u, ApiSuffix) then u
      else if EndsWith(u, "/") then
        SlashThenRest(u);
        EndsWithAppend(u[..|u| - 1], ApiSuffix);
        assert (u + "api/v1")[..|u|] == u;
        u + "api/v1"
      else
        EndsWithAppend(u, ApiSuffix);
        assert (u + ApiSuffix)[..|u|] == u;
        u + ApiSuffix
  }

  /**
   * What is appended, case by case: nothing to a URL that already ends in
   * `/api/v1`, `api/v1` after a trailing `/`, `/api/v1` to anything else.
   */
  lemma BaseUrlCases(u: string)
    requires u != ""
    ensures EndsWith(u, ApiSuffix) ==> BaseUrl(Some(u)) == u
    ensures !EndsWith(u, ApiSuffix) && EndsWith(u, "/") ==> BaseUrl(Some(u)) == u + "api/v1"
    ensures !EndsWith(u, ApiSuffix) && !EndsWith(u, "/") ==> BaseUrl(Some(u)) == u + ApiSuffix
  {
  }

  /** The rule applied to its own output changes nothing. */
  lemma BaseUrlIdempotent(env: Option<string>)
    ensures BaseUrl(Some(BaseUrl(env))) == BaseUrl(env)
  {
    var r := BaseUrl(env);
    assert |r| >= |ApiSuffix|;
  }

  /** The result is never longer than the variable plus the suffix: no `/` is ever doubled. */
  lemma BaseUrlLength(env: Option<string>)
    ensures |BaseUrl(env)| <= |env.GetOr("")| + |ApiSuffix|
    ensures env.Some? && EndsWith(env.value, "/") && !EndsWith(env.value, ApiSuffix) ==>
      BaseUrl(env) == env.value[..|env.value| - 1] + ApiSuffix
  {
    if env.Some? && env.value != "" && !EndsWith(env.value, ApiSuffix) && EndsWith(env.value, "/") {
      SlashThenRest(env.value);
    }
  }
}
