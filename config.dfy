/** How a document decides whether it runs with the cache/index layer: the
    process-wide OCRD_METS_CACHING setting, when it reads "true" or "false" in any
    letter case, overrides the flag passed to the constructor. */
module Config {
  import opened Records

  function LowerChar(c: char): char
  {
    if 'A' <= c <= 'Z' then (c as int + 32) as char else c
  }

  /** ASCII lower-casing. */
  function Lower(s: string): (r: string)
    ensures |r| == |s|
    ensures forall i :: 0 <= i < |s| ==> r[i] == LowerChar(s[i])
  {
    seq(|s|, i requires 0 <= i < |s| => LowerChar(s[i]))
  }

  /** The effective cache flag, given the environment setting (None when unset)
      and the constructor's `cache_flag`. */
  function CacheFlag(env: Option<string>, flag: bool): (cached: bool)
    ensures env.Some? && Lower(env.value) == "true" ==> cached
    ensures env.Some? && Lower(env.value) == "false" ==> !cached
    ensures env.None? || (Lower(env.value) != "true" && Lower(env.value) != "false") ==> cached == flag
  {
    match env
    case None => flag
    case Some(v) =>
      if Lower(v) == "true" then true
      else if Lower(v) == "false" then false
      else flag
  }

  /** The precedence rule: a recognised environment value decides alone; an unset
      or unrecognised one leaves the constructor flag in charge. */
  lemma CachePrecedence(env: Option<string>, flag: bool)
    ensures env.Some? && Lower(env.value) == "true" ==> CacheFlag(env, flag)
    ensures env.Some? && Lower(env.value) == "false" ==> !CacheFlag(env, flag)
    ensures env.None? ==> CacheFlag(env, flag) == flag
    ensures CacheFlag(env, true) != CacheFlag(env, false) <==>
              env.None? || (Lower(env.value) != "true" && Lower(env.value) != "false")
  {
  }

  /** The six constructions of the environment test. */
  lemma EnvironmentOverride()
    ensures CacheFlag(None, true) && !CacheFlag(None, false)
    ensures CacheFlag(Some("true"), true) && CacheFlag(Some("true"), false)
    ensures !CacheFlag(Some("false"), true) && !CacheFlag(Some("false"), false)
    ensures CacheFlag(Some("TRUE"), false) && !CacheFlag(Some("False"), true)
  {
  }
}
