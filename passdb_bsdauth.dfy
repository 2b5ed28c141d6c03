/** The BSD authentication password database: parsing its argument string
    into a module record, and checking a plaintext password through the
    system's auth_userokay. */
module PassdbBsdauth {
  import opened Wrappers

  /** The fields of struct passdb_module that this database sets. */
  datatype PassdbModule = PassdbModule(
    defaultPassScheme: string,
    blocking: bool,
    defaultCacheKey: Option<string>)

  /** What preinit produces: the module, or the fatal error that stops the process. */
  datatype PreinitResult = Module(passdb: PassdbModule) | Fatal(message: string)

  const CacheKeyPrefix := "cache_key="

  /** str_begins(s, prefix). */
  predicate StartsWith(s: string, prefix: string)
  {
    |prefix| <= |s| && s[..|prefix|] == prefix
  }

  /** bsdauth_preinit: the record starts as scheme PLAIN, blocking, no cache
      key; the argument string may hold at most one option. `parseKey` is
      auth_cache_parse_key. */
  function Preinit(parseKey: string -> string, args: string): (r: PreinitResult)
    ensures r.Module? ==> r.passdb.defaultPassScheme == "PLAIN"
    ensures args == "" ==> r == Module(PassdbModule("PLAIN", true, None))
    ensures args == "blocking=no" ==> r == Module(PassdbModule("PLAIN", false, None))
    ensures StartsWith(args, CacheKeyPrefix) ==>
              r == Module(PassdbModule("PLAIN", true, Some(parseKey(args[|CacheKeyPrefix|..]))))
    ensures r.Fatal? <==> args != "" && args != "blocking=no" && !StartsWith(args, CacheKeyPrefix)
    ensures r.Fatal? ==> r.message == "passdb bsdauth: Unknown setting: " + args
  {
    var m := PassdbModule("PLAIN", true, None);
    if args == "blocking=no" then
      assert args[0] != CacheKeyPrefix[0];
      Module(m.(blocking := false))
    else if StartsWith(args, "cache_key=") then
      Module(m.(defaultCacheKey := Some(parseKey(args[10..]))))
    else if args != "" then
      Fatal("passdb bsdauth: Unknown setting: " + args)
    else
      Module(m)
  }

  /** The one option an argument string can carry. */
  datatype Setting = NoSetting | NonBlocking | CacheKey(key: string)

  /** The argument string that carries a setting. */
  function Format(s: Setting): string
  {
    match s
    case NoSetting => ""
    case NonBlocking => "blocking=no"
    case CacheKey(k) => CacheKeyPrefix + k
  }

  /** The module record a setting should produce. */
  function Intended(parseKey: string -> string, s: Setting): PassdbModule
  {
    match s
    case NoSetting => PassdbModule("PLAIN", true, None)
    case NonBlocking => PassdbModule("PLAIN", false, None)
    case CacheKey(k) => PassdbModule("PLAIN", true, Some(parseKey(k)))
  }

  /** Every setting written out is read back as that setting, and nothing
      else changes in the record. */
  lemma FormatThenPreinit(parseKey: string -> string, s: Setting)
    ensures Preinit(parseKey, Format(s)) == Module(Intended(parseKey, s))
  {
    if s.CacheKey? {
      var args := Format(s);
      assert args[..|CacheKeyPrefix|] == CacheKeyPrefix;
      assert args[|CacheKeyPrefix|..] == s.key;
    }
  }

  /** A second option in the same string is not recognised: after
      `blocking=no` it is fatal, after `cache_key=` it becomes part of the key. */
  lemma OneOptionPerString(parseKey: string -> string)
    ensures Preinit(parseKey, "blocking=no cache_key=%u").Fatal?
    ensures Preinit(parseKey, "cache_key=%u blocking=no")
         == Module(PassdbModule("PLAIN", true, Some(parseKey("%u blocking=no"))))
  {
    var a := "blocking=no cache_key=%u";
    assert a != "blocking=no" by { assert |a| != |"blocking=no"|; }
    assert !StartsWith(a, CacheKeyPrefix) by { assert a[0] != CacheKeyPrefix[0]; }
    var b := "cache_key=%u blocking=no";
    assert b[..10] == CacheKeyPrefix;
    assert b[10..] == "%u blocking=no";
  }

  /** The two passdb results this database produces. */
  datatype PassdbResult = PasswordMismatch | Ok

  /** The part of struct auth_request that the password check uses. */
  datatype AuthRequest = AuthRequest(user: string, service: string)

  /** One invocation of the verify callback. */
  datatype Callback = Callback(result: PassdbResult, request: AuthRequest)

  /** bsdauth_verify_plain: asks auth_userokay(user, NULL, "auth-<service>",
      password) and invokes the callback once with the answer. The return
      value is the sequence of callback invocations. */
  function VerifyPlain(userOkay: (string, string, string) -> int, request: AuthRequest,
                       password: string): (calls: seq<Callback>)
    ensures |calls| == 1 && calls[0].request == request
    ensures calls[0].result == PasswordMismatch <==>
              userOkay(request.user, "auth-" + request.service, password) == 0
    ensures calls[0].result == Ok <==>
              userOkay(request.user, "auth-" + request.service, password) != 0
  {
    var style := "auth-" + request.service;
    var result := userOkay(request.user, style, password);
    if result == 0 then
      [Callback(PasswordMismatch, request)]
    else
      [Callback(Ok, request)]
  }
}
