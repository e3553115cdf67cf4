/**
 * Configuration resolved once from the environment: backend URL and key,
 * cookie-name prefix, and whether the backend is really configured.
 */
module Config {
  import opened Js

  const PLACEHOLDER_URL := "https://placeholder.supabase.co"
  const PLACEHOLDER_ANON_KEY := "placeholder-anon-key"
  const DEFAULT_COOKIE_PREFIX := "supabase"
  const DEFAULT_APP_URL := "http://localhost:3000"
  const ACCESS_TOKEN_SUFFIX := "-access-token"
  const REFRESH_TOKEN_SUFFIX := "-refresh-token"

  /** The environment variables read at start-up; `None` when unset. */
  datatype Env = Env(
    supabaseUrl: Option<string>,
    supabaseAnonKey: Option<string>,
    cookiePrefix: Option<string>,
    appUrl: Option<string>)

  function SupabaseUrl(env: Env): (url: string)
    ensures url != ""
    ensures Present(env.supabaseUrl) ==> url == env.supabaseUrl.value
    ensures !Present(env.supabaseUrl) ==> url == PLACEHOLDER_URL
  {
    OrElse(env.supabaseUrl, PLACEHOLDER_URL)
  }

  function SupabaseAnonKey(env: Env): (key: string)
    ensures key != ""
    ensures Present(env.supabaseAnonKey) ==> key == env.supabaseAnonKey.value
    ensures !Present(env.supabaseAnonKey) ==> key == PLACEHOLDER_ANON_KEY
  {
    OrElse(env.supabaseAnonKey, PLACEHOLDER_ANON_KEY)
  }

  function CookiePrefix(env: Env): (prefix: string)
    ensures prefix != ""
    ensures Present(env.cookiePrefix) ==> prefix == env.cookiePrefix.value
    ensures !Present(env.cookiePrefix) ==> prefix == DEFAULT_COOKIE_PREFIX
  {
    OrElse(env.cookiePrefix, DEFAULT_COOKIE_PREFIX)
  }

  /** The application URL that auth e-mails redirect to. */
  function AppMailRedirects(env: Env): (url: string)
    ensures url != ""
    ensures Present(env.appUrl) ==> url == env.appUrl.value
    ensures !Present(env.appUrl) ==> url == DEFAULT_APP_URL
  {
    OrElse(env.appUrl, DEFAULT_APP_URL)
  }

  /** The access-token cookie's name: the prefix, then `-access-token`. */
  function AccessTokenName(prefix: string): (name: string)
    ensures |name| == |prefix| + |ACCESS_TOKEN_SUFFIX|
    ensures name[..|prefix|] == prefix
    ensures name[|prefix|..] == ACCESS_TOKEN_SUFFIX
  {
    prefix + ACCESS_TOKEN_SUFFIX
  }

  /** The refresh-token cookie's name: the prefix, then `-refresh-token`. */
  function RefreshTokenName(prefix: string): (name: string)
    ensures |name| == |prefix| + |REFRESH_TOKEN_SUFFIX|
    ensures name[..|prefix|] == prefix
    ensures name[|prefix|..] == REFRESH_TOKEN_SUFFIX
  {
    prefix + REFRESH_TOKEN_SUFFIX
  }

  /**
   * The backend counts as configured when both environment values are set,
   * non-empty and not the placeholders. Equivalently: neither resolved value
   * fell back to, or was set to, its placeholder; and then the resolved URL
   * and key are exactly what the environment gave.
   */
  predicate IsSupabaseConfigured(env: Env)
    ensures IsSupabaseConfigured(env) <==>
      SupabaseUrl(env) != PLACEHOLDER_URL && SupabaseAnonKey(env) != PLACEHOLDER_ANON_KEY
    ensures IsSupabaseConfigured(env) ==>
      SupabaseUrl(env) == env.supabaseUrl.value && SupabaseAnonKey(env) == env.supabaseAnonKey.value
  {
    && Present(env.supabaseUrl)
    && Present(env.supabaseAnonKey)
    && env.supabaseUrl.value != PLACEHOLDER_URL
    && env.supabaseAnonKey.value != PLACEHOLDER_ANON_KEY
  }

  /**
   * No access-token cookie name is ever a refresh-token cookie name, whatever
   * the two prefixes: the suffixes differ seven characters from the end.
   */
  lemma CookieNamesNeverCollide(p: string, q: string)
    ensures AccessTokenName(p) != RefreshTokenName(q)
  {
    var a, r := AccessTokenName(p), RefreshTokenName(q);
    assert a[|a| - 7] == ACCESS_TOKEN_SUFFIX[6] == 's';
    assert r[|r| - 7] == REFRESH_TOKEN_SUFFIX[7] == 'h';
  }

  /** Each cookie name determines the prefix it was built from. */
  lemma CookieNamesDeterminePrefix(p: string, q: string)
    ensures AccessTokenName(p) == AccessTokenName(q) ==> p == q
    ensures RefreshTokenName(p) == RefreshTokenName(q) ==> p == q
  {
    if AccessTokenName(p) == AccessTokenName(q) {
      assert AccessTokenName(p)[..|p|] == p;
      assert AccessTokenName(q)[..|q|] == q;
    }
    if RefreshTokenName(p) == RefreshTokenName(q) {
      assert RefreshTokenName(p)[..|p|] == p;
      assert RefreshTokenName(q)[..|q|] == q;
    }
  }
}
