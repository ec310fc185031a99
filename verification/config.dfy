/**
 * `loadConfig`'s choice of the endpoint URL, over values already read: the
 * `PRMPT_API_URL` environment variable and the candidate config files in
 * their fixed order.
 */
module Config {
  import opened Wrappers
  import opened Text

  /** The text that marks a config file as a placeholder still to be filled in. */
  const PlaceholderMarker: string := "TOKEN_HERE"

  /** A candidate config file: absent, or present with an optional `url` field. */
  datatype ConfigFile = Missing | Present(url: Option<string>)

  /** A present config file whose `url` is non-empty and not a placeholder. */
  predicate Usable(f: ConfigFile) {
    f.Present? && f.url.Some? && f.url.value != "" && !Contains(f.url.value, PlaceholderMarker)
  }

  /** The environment variable is set to a non-empty value (JavaScript truthiness). */
  predicate EnvSet(env: Option<string>) {
    env.Some? && env.value != ""
  }

  /** The `url` of the first usable file, trying the candidates in order. */
  function FirstUsable(files: seq<ConfigFile>): (r: Option<string>)
    ensures r.None? <==> forall i :: 0 <= i < |files| ==> !Usable(files[i])
    ensures r.Some? ==> exists i :: 0 <= i < |files| && Usable(files[i]) && files[i].url == r &&
                          forall j :: 0 <= j < i ==> !Usable(files[j])
    decreases |files|
  {
    if |files| == 0 then None
    else if Usable(files[0]) then files[0].url
    else
      var r := FirstUsable(files[1..]);
      assert forall j :: 1 <= j < |files| ==> files[j] == files[1..][j - 1];
      r
  }

  /**
   * `loadConfig`: a non-empty environment value wins; otherwise the first
   * usable config file; otherwise not configured.
   */
  function LoadConfig(env: Option<string>, files: seq<ConfigFile>): (r: Option<string>)
    ensures EnvSet(env) ==> r == env
    ensures !EnvSet(env) ==> (r.None? <==> forall i :: 0 <= i < |files| ==> !Usable(files[i]))
    ensures !EnvSet(env) && r.Some? ==>
      exists i :: 0 <= i < |files| && Usable(files[i]) && files[i].url == r && forall j :: 0 <= j < i ==> !Usable(files[j])
    ensures r.Some? ==> r.value != ""
    ensures r.Some? && Contains(r.value, PlaceholderMarker) ==> r == env
  {
    if EnvSet(env) then env else FirstUsable(files)
  }

  /** A placeholder file is skipped in favour of a later real one. */
  lemma PlaceholderFileSkipped()
    ensures LoadConfig(None, [Present(Some("https://x/TOKEN_HERE")), Present(Some("https://api/p"))])
         == Some("https://api/p")
    ensures LoadConfig(Some(""), [Missing, Present(None)]) == None
  {
    var u := "https://x/TOKEN_HERE";
    assert OccursAt(u, 10, PlaceholderMarker) by {
      assert u[10..20] == PlaceholderMarker;
    }
    var v := "https://api/p";
    assert !Contains(v, PlaceholderMarker) by {
      forall i: nat | i <= |v|
        ensures !OccursAt(v, i, PlaceholderMarker)
      {
        if i + |PlaceholderMarker| <= |v| {
          assert v[i..i + |PlaceholderMarker|][0] == v[i] != 'T';
        }
      }
    }
  }
}
