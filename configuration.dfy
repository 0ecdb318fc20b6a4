/** `BaseConfig`: the base URI and the sandbox flag, validated once at construction. */
module Configuration {
  import opened Wrappers
  import opened Php

  /** `ConfigException`: an invalid configuration value. */
  datatype ConfigException = ConfigException(message: string)

  datatype BaseConfig = BaseConfig(baseUri: string, sandbox: bool) {
    function GetBaseUri(): string { baseUri }
    predicate IsSandbox() { sandbox }
  }

  /** `rtrim($baseUri, '/')`: the normal form the configuration stores. */
  function NormalizeBaseUri(baseUri: string): (r: string)
    ensures |r| <= |baseUri| && r == baseUri[..|r|]
    ensures r == [] || r[|r| - 1] != '/'
    ensures forall i :: |r| <= i < |baseUri| ==> baseUri[i] == '/'
  {
    RTrimChar(baseUri, '/')
  }

  /** Normalising a stored URI again leaves it as it is. */
  lemma NormalizeIdempotent(baseUri: string)
    ensures NormalizeBaseUri(NormalizeBaseUri(baseUri)) == NormalizeBaseUri(baseUri)
  {
  }

  /**
   * The constructor: rejects a URI that `trim` leaves empty (or "0", which
   * PHP's `empty` also treats as empty), otherwise stores the URI without its
   * trailing slashes.
   */
  function NewBaseConfig(baseUri: string, sandbox: bool := true): (r: Result<BaseConfig, ConfigException>)
    ensures r.Failure? <==> EmptyString(Trim(baseUri))
    ensures r.Failure? ==> r.error.message == "Base URI cannot be empty"
    ensures r.Success? ==> r.value.IsSandbox() == sandbox
    ensures r.Success? ==> r.value.GetBaseUri() == NormalizeBaseUri(baseUri)
  {
    if EmptyString(Trim(baseUri)) then Failure(ConfigException("Base URI cannot be empty"))
    else Success(BaseConfig(NormalizeBaseUri(baseUri), sandbox))
  }

  /**
   * What an accepted configuration stores: a prefix of the input that does not
   * end in '/', which normalising again does not change; only slashes were
   * cut off.
   */
  lemma {:induction false} StoredBaseUri(baseUri: string, sandbox: bool)
    requires NewBaseConfig(baseUri, sandbox).Success?
    ensures var u := NewBaseConfig(baseUri, sandbox).value.GetBaseUri();
      && u == baseUri[..|u|]
      && (u == [] || u[|u| - 1] != '/')
      && NormalizeBaseUri(u) == u
      && forall i :: |u| <= i < |baseUri| ==> baseUri[i] == '/'
  {
    NormalizeIdempotent(baseUri);
  }

  /** A URI made only of slashes passes validation and is stored empty. */
  lemma OnlySlashesStoredEmpty(sandbox: bool)
    ensures NewBaseConfig("///", sandbox) == Success(BaseConfig("", sandbox))
  {
    assert Trim("///") != "";
    assert !EmptyString(Trim("///"));
  }

  /** A blank URI is rejected, and so is "0" with any blank padding. */
  lemma {:induction false} BlankRejected(pre: string, post: string, sandbox: bool)
    requires forall i :: 0 <= i < |pre| ==> IsTrimChar(pre[i])
    requires forall i :: 0 <= i < |post| ==> IsTrimChar(post[i])
    ensures NewBaseConfig(pre + post, sandbox).Failure?
    ensures NewBaseConfig(pre + "0" + post, sandbox).Failure?
  {
    var blank := pre + post;
    assert forall i :: 0 <= i < |blank| ==> IsTrimChar(blank[i]) by {
      forall i | 0 <= i < |blank| ensures IsTrimChar(blank[i]) {
        if i < |pre| { assert blank[i] == pre[i]; } else { assert blank[i] == post[i - |pre|]; }
      }
    }
    TrimPadded(pre, "0", post);
  }

  /** A URI without blank ends is accepted as it is, and one trailing '/' is dropped. */
  lemma TrailingSlashDropped(u: string, sandbox: bool)
    requires u != [] && u != "0" && !IsTrimChar(u[0]) && !IsTrimChar(u[|u| - 1]) && u[|u| - 1] != '/'
    ensures NewBaseConfig(u, sandbox) == Success(BaseConfig(u, sandbox))
    ensures NewBaseConfig(u + "/", sandbox) == Success(BaseConfig(u, sandbox))
  {
    TrimUnchanged(u);
    var v := u + "/";
    assert v[0] == u[0] && v[|v| - 1] == '/';
    TrimUnchanged(v);
    assert |Trim(v)| >= 2;
    assert v[..|v| - 1] == u;
    assert RTrimChar(v, '/') == RTrimChar(u, '/');
  }
}
