/** Configuration filters: the `protocol imap { ... }`, `local 10.0.0.0/8 { ... }`,
    `remote ...` and `local_name mail.example.com { ... }` blocks that scope
    settings, with the matching of a lookup mask against a filter and the
    equality of two filters. A filter may sit inside another one; the
    enclosing filter is its parent. */
module ConfigFilter {
  import opened Wrappers

  /** An IP address as the network helpers see it. The model never looks
      inside one; it only hands them to the helpers. An unset network holds
      the all-zero address. */
  datatype IpAddr = IpAddr(family: nat, address: nat)

  const ZeroIp := IpAddr(0, 0)

  /** The routines the filter code calls but does not define, as total
      functions. */
  datatype Oracles = Oracles(
    /** dns_match_wildcard(name, pattern): 0 when the name matches the pattern */
    dnsMatchWildcard: (string, string) -> int,
    /** net_is_in_network(ip, network, bits) */
    netIsInNetwork: (IpAddr, IpAddr, nat) -> bool,
    /** net_ip_compare(ip1, ip2): the two addresses are the same */
    netIpCompare: (IpAddr, IpAddr) -> bool)

  /** One filter. A `None` string is a NULL pointer; a prefix length of 0
      means that network is not part of the filter. */
  datatype Filter = Filter(
    service: Option<string>,
    localName: Option<string>,
    localNet: IpAddr, localBits: nat,
    remoteNet: IpAddr, remoteBits: nat,
    filterName: Option<string>,
    filterNameArray: bool,
    defaultSettings: bool,
    parent: Option<Filter>)

  /** The zero-filled filter, and the same with default_settings set. */
  const EmptyFilter := Filter(None, None, ZeroIp, 0, ZeroIp, 0, None, false, false, None)
  const EmptyDefaultsFilter := EmptyFilter.(defaultSettings := true)

  // ---------------------------------------------------------------------
  // Matching a mask against a filter: 1 matches, 0 does not match,
  // -1 the filter lacks something the mask asks about.
  // ---------------------------------------------------------------------

  /** A service pattern `!svc` accepts every service except `svc`; any other
      pattern accepts exactly itself. */
  predicate ServiceAccepts(pattern: string, service: string)
  {
    if |pattern| > 0 && pattern[0] == '!' then service != pattern[1..] else service == pattern
  }

  function MatchService(mask: Filter, filter: Filter): (r: int)
    ensures r == -1 || r == 0 || r == 1
    ensures mask.service.None? ==> r == 1
    ensures mask.service.Some? && filter.service.None? ==> r == -1
    ensures mask.service.Some? && filter.service.Some? ==>
              (r == 1 <==> ServiceAccepts(mask.service.value, filter.service.value))
    ensures r == 0 <==> mask.service.Some? && filter.service.Some? &&
                          !ServiceAccepts(mask.service.value, filter.service.value)
  {
    if mask.service.Some? then
      if filter.service.None? then -1
      else if |mask.service.value| > 0 && mask.service.value[0] == '!' then
        (if filter.service.value == mask.service.value[1..] then 0 else 1)
      else
        (if filter.service.value != mask.service.value then 0 else 1)
    else 1
  }

  /** The offset of the first space in `s`, as strchr(s, ' ') finds it. */
  function FindSpace(s: string): (r: Option<nat>)
    ensures r.Some? ==> r.value < |s| && s[r.value] == ' ' && ' ' !in s[..r.value]
    ensures r.None? ==> ' ' !in s
  {
    if s == [] then None
    else if s[0] == ' ' then Some(0)
    else
      match FindSpace(s[1..])
      case None => None
      case Some(i) =>
        assert s[..i + 1] == [s[0]] + s[1..][..i];
        Some(i + 1)
  }

  /** The space-separated elements of a local_name list, in order, empty
      elements included (two adjacent spaces delimit an empty one). */
  function Split(s: string): (parts: seq<string>)
    ensures |parts| > 0
    decreases |s|
  {
    match FindSpace(s)
    case None => [s]
    case Some(i) => [s[..i]] + Split(s[i + 1..])
  }

  /** The elements joined back with single spaces. */
  function Join(parts: seq<string>): string
    requires |parts| > 0
  {
    if |parts| == 1 then parts[0] else parts[0] + " " + Join(parts[1..])
  }

  /** No element produced by Split contains a space. */
  lemma {:induction false} SplitElementsHaveNoSpace(s: string)
    ensures forall i :: 0 <= i < |Split(s)| ==> ' ' !in Split(s)[i]
    decreases |s|
  {
    match FindSpace(s)
    case None =>
    case Some(k) =>
      SplitElementsHaveNoSpace(s[k + 1..]);
      assert Split(s) == [s[..k]] + Split(s[k + 1..]);
  }

  /** Splitting loses nothing: the elements joined with spaces give back the list. */
  lemma {:induction false} JoinSplit(s: string)
    ensures Join(Split(s)) == s
    decreases |s|
  {
    match FindSpace(s)
    case None =>
    case Some(k) =>
      JoinSplit(s[k + 1..]);
      var rest := Split(s[k + 1..]);
      assert Split(s) == [s[..k]] + rest;
      assert ([s[..k]] + rest)[1..] == rest;
      assert s == s[..k] + " " + s[k + 1..];
  }

  /** Splitting a space-joined list of space-free names gives the names back. */
  lemma {:induction false} SplitJoin(parts: seq<string>)
    requires |parts| > 0
    requires forall i :: 0 <= i < |parts| ==> ' ' !in parts[i]
    ensures Split(Join(parts)) == parts
  {
    if |parts| > 1 {
      SplitJoin(parts[1..]);
      var a, s := parts[0], Join(parts);
      assert s == a + " " + Join(parts[1..]);
      FindSpaceAfterWord(a, Join(parts[1..]));
      assert s[..|a|] == a;
      assert s[|a| + 1..] == Join(parts[1..]);
    } else {
      assert ' ' !in parts[0];
    }
  }

  lemma {:induction false} FindSpaceAfterWord(a: string, b: string)
    requires ' ' !in a
    ensures FindSpace(a + " " + b) == Some(|a|)
    decreases |a|
  {
    if a != [] {
      FindSpaceAfterWord(a[1..], b);
      assert (a + " " + b)[1..] == a[1..] + " " + b;
    }
  }

  /** The example from the configuration documentation splits into its three names. */
  lemma ThreeNameList()
    ensures Split("mail.domain.tld" + " " + "domain.tld" + " " + "mx.domain.tld")
         == ["mail.domain.tld", "domain.tld", "mx.domain.tld"]
  {
    var parts := ["mail.domain.tld", "domain.tld", "mx.domain.tld"];
    assert ' ' !in parts[0];
    assert ' ' !in parts[1];
    assert ' ' !in parts[2];
    assert Join(parts[2..]) == parts[2];
    assert Join(parts[1..]) == parts[1] + " " + parts[2];
    assert Join(parts) == parts[0] + " " + (parts[1] + " " + parts[2]);
    assert parts[0] + " " + (parts[1] + " " + parts[2]) == parts[0] + " " + parts[1] + " " + parts[2];
    SplitJoin(parts);
  }

  /** Some element of the mask's space-separated local_name list matches
      the filter's name as a wildcard. */
  predicate LocalNameMatches(o: Oracles, names: string, name: string)
  {
    exists e :: e in Split(names) && o.dnsMatchWildcard(name, e) == 0
  }

  /** config_filter_match_local_name: walks the list one space at a time,
      trying each element, and the last one after the loop. */
  method MatchLocalName(o: Oracles, mask: Filter, filterLocalName: string) returns (matched: bool)
    requires mask.localName.Some?
    ensures matched == LocalNameMatches(o, mask.localName.value, filterLocalName)
  {
    var names := mask.localName.value;
    var pos := 0;
    var ptr := FindSpace(names[pos..]);
    while ptr.Some?
      invariant pos <= |names|
      invariant ptr == FindSpace(names[pos..])
      invariant LocalNameMatches(o, names, filterLocalName) == LocalNameMatches(o, names[pos..], filterLocalName)
      decreases |names| - pos
    {
      var k := ptr.value;
      var rest := names[pos..];
      assert Split(rest) == [rest[..k]] + Split(rest[k + 1..]);
      assert rest[..k] == names[pos..pos + k];
      assert rest[k + 1..] == names[pos + k + 1..];
      if o.dnsMatchWildcard(filterLocalName, names[pos..pos + k]) == 0 {
        assert names[pos..pos + k] in Split(rest);
        return true;
      }
      pos := pos + k + 1;
      ptr := FindSpace(names[pos..]);
    }
    assert Split(names[pos..]) == [names[pos..]];
    matched := o.dnsMatchWildcard(filterLocalName, names[pos..]) == 0;
  }

  /** Some field that both the mask and the filter set disagrees: the
      filter's local name is none of the mask's names, or one of its
      addresses lies outside the mask's network. */
  predicate RestMismatch(o: Oracles, mask: Filter, filter: Filter)
  {
    || (mask.localName.Some? && filter.localName.Some? &&
        !LocalNameMatches(o, mask.localName.value, filter.localName.value))
    || (mask.remoteBits != 0 && filter.remoteBits != 0 &&
        !o.netIsInNetwork(filter.remoteNet, mask.remoteNet, mask.remoteBits))
    || (mask.localBits != 0 && filter.localBits != 0 &&
        !o.netIsInNetwork(filter.localNet, mask.localNet, mask.localBits))
  }

  /** Some field the mask sets is absent from the filter. */
  predicate RestLacks(mask: Filter, filter: Filter)
  {
    || (mask.localName.Some? && filter.localName.None?)
    || (mask.remoteBits != 0 && filter.remoteBits == 0)
    || (mask.localBits != 0 && filter.localBits == 0)
  }

  /** The verdict on the local name and the two networks: a mismatch
      anywhere decides 0, even after a field the filter lacked. */
  function RestResult(o: Oracles, mask: Filter, filter: Filter): int
  {
    if RestMismatch(o, mask, filter) then 0
    else if RestLacks(mask, filter) then -1
    else 1
  }

  /** config_filter_match_rest: tests the fields in order, remembering -1
      for a field the filter lacks and returning 0 at the first mismatch. */
  method MatchRest(o: Oracles, mask: Filter, filter: Filter) returns (ret: int)
    ensures ret == RestResult(o, mask, filter)
  {
    ret := 1;
    if mask.localName.Some? {
      if filter.localName.None? {
        ret := -1;
      } else {
        var matched := MatchLocalName(o, mask, filter.localName.value);
        if !matched {
          return 0;
        }
      }
    }
    if mask.remoteBits != 0 {
      if filter.remoteBits == 0 {
        ret := -1;
      } else if !o.netIsInNetwork(filter.remoteNet, mask.remoteNet, mask.remoteBits) {
        return 0;
      }
    }
    if mask.localBits != 0 {
      if filter.localBits == 0 {
        ret := -1;
      } else if !o.netIsInNetwork(filter.localNet, mask.localNet, mask.localBits) {
        return 0;
      }
    }
  }

  /** One level of matching: 0 when the service or the rest mismatches,
      1 when both match, -1 otherwise. */
  function MatchNoRecurse(o: Oracles, mask: Filter, filter: Filter): (r: int)
    ensures r == -1 || r == 0 || r == 1
    ensures r == 0 <==> MatchService(mask, filter) == 0 || RestResult(o, mask, filter) == 0
    ensures r == 1 <==> MatchService(mask, filter) == 1 && RestResult(o, mask, filter) == 1
  {
    var ret := MatchService(mask, filter);
    if ret == 0 then 0
    else
      var ret2 := RestResult(o, mask, filter);
      if ret2 == 0 then 0
      else if ret > 0 && ret2 > 0 then 1
      else -1
  }

  /** The filter followed by its ancestors, nearest first. */
  function Chain(f: Filter): (c: seq<Filter>)
    ensures |c| > 0 && c[0] == f
  {
    match f.parent
    case None => [f]
    case Some(p) => [f] + Chain(p)
  }

  /** The chain of an optional filter: empty for NULL. */
  function OptChain(f: Option<Filter>): seq<Filter>
  {
    if f.None? then [] else Chain(f.value)
  }

  /** Two chains of the same length whose levels match pairwise. */
  predicate LevelsMatch(o: Oracles, masks: seq<Filter>, filters: seq<Filter>)
  {
    |masks| == |filters| &&
    forall i :: 0 <= i < |masks| ==> MatchNoRecurse(o, masks[i], filters[i]) == 1
  }

  lemma LevelsMatchCons(o: Oracles, m: Filter, ms: seq<Filter>, f: Filter, fs: seq<Filter>)
    ensures LevelsMatch(o, [m] + ms, [f] + fs) <==>
              MatchNoRecurse(o, m, f) == 1 && LevelsMatch(o, ms, fs)
  {
    if MatchNoRecurse(o, m, f) == 1 && LevelsMatch(o, ms, fs) {
      forall i | 0 <= i < |[m] + ms|
        ensures MatchNoRecurse(o, ([m] + ms)[i], ([f] + fs)[i]) == 1
      {
        if i > 0 {
          assert ([m] + ms)[i] == ms[i - 1] && ([f] + fs)[i] == fs[i - 1];
        }
      }
    }
    if LevelsMatch(o, [m] + ms, [f] + fs) {
      assert MatchNoRecurse(o, ([m] + ms)[0], ([f] + fs)[0]) == 1;
      forall i | 0 <= i < |ms| ensures MatchNoRecurse(o, ms[i], fs[i]) == 1 {
        assert ([m] + ms)[i + 1] == ms[i] && ([f] + fs)[i + 1] == fs[i];
      }
    }
  }

  /** config_filter_match: walks mask and filter up their parent chains
      together; true only when every level matches with 1 and both chains
      end at the same depth. */
  method Match(o: Oracles, mask: Filter, filter: Filter) returns (matched: bool)
    ensures matched <==> LevelsMatch(o, Chain(mask), Chain(filter))
    ensures |Chain(mask)| != |Chain(filter)| ==> !matched
  {
    var m, f := Some(mask), Some(filter);
    while m.Some? && f.Some?
      invariant LevelsMatch(o, Chain(mask), Chain(filter)) <==> LevelsMatch(o, OptChain(m), OptChain(f))
      decreases |OptChain(m)|
    {
      var mv, fv := m.value, f.value;
      LevelsMatchCons(o, mv, OptChain(mv.parent), fv, OptChain(fv.parent));
      assert Chain(mv) == [mv] + OptChain(mv.parent);
      assert Chain(fv) == [fv] + OptChain(fv.parent);
      if MatchNoRecurse(o, mv, fv) <= 0 {
        return false;
      }
      m, f := mv.parent, fv.parent;
    }
    matched := m.None? && f.None?;
  }

  // ---------------------------------------------------------------------
  // Equality of filters
  // ---------------------------------------------------------------------

  /** tolower in the C locale: only ASCII upper-case letters change. */
  function ToLower(c: char): char
  {
    if 'A' <= c <= 'Z' then (c as int + 32) as char else c
  }

  /** strcasecmp(a, b) == 0. */
  predicate StrCaseEqual(a: string, b: string)
  {
    |a| == |b| && forall i :: 0 <= i < |a| ==> ToLower(a[i]) == ToLower(b[i])
  }

  /** null_strcasecmp(a, b) == 0: both NULL, or both set and equal ignoring case. */
  predicate NullStrCaseEqual(a: Option<string>, b: Option<string>)
  {
    match (a, b)
    case (None, None) => true
    case (Some(x), Some(y)) => StrCaseEqual(x, y)
    case _ => false
  }

  /** config_filters_equal_no_recursion: the fields of one level, without
      default_settings and the parent. NULL strings compare equal only to
      NULL (null_strcmp). */
  predicate EqualNoRecursion(o: Oracles, f1: Filter, f2: Filter)
  {
    && f1.service == f2.service
    && f1.remoteBits == f2.remoteBits
    && o.netIpCompare(f1.remoteNet, f2.remoteNet)
    && f1.localBits == f2.localBits
    && o.netIpCompare(f1.localNet, f2.localNet)
    && NullStrCaseEqual(f1.localName, f2.localName)
    && f1.filterName == f2.filterName
    && f1.filterNameArray == f2.filterNameArray
  }

  /** The number of filters in the chain. */
  function Depth(f: Filter): nat
  {
    match f.parent
    case None => 1
    case Some(p) => 1 + Depth(p)
  }

  /** The parent, with a missing one read as the empty root filter. */
  function ParentOrEmpty(f: Filter): Filter
  {
    if f.parent.Some? then f.parent.value else EmptyFilter
  }

  /** config_filters_equal_without_defaults. */
  predicate EqualWithoutDefaults(o: Oracles, f1: Filter, f2: Filter)
    decreases Depth(f1) + Depth(f2)
  {
    if !EqualNoRecursion(o, f1, f2) then false
    else if f1.parent.Some? || f2.parent.Some? then
      EqualWithoutDefaults(o, ParentOrEmpty(f1), ParentOrEmpty(f2))
    else true
  }

  /** config_filters_equal: default_settings is compared at the top level only. */
  predicate FiltersEqual(o: Oracles, f1: Filter, f2: Filter)
    ensures FiltersEqual(o, f1, f2) ==> f1.defaultSettings == f2.defaultSettings &&
                                        EqualNoRecursion(o, f1, f2)
  {
    f1.defaultSettings == f2.defaultSettings && EqualWithoutDefaults(o, f1, f2)
  }

  /** config_filter_is_empty. */
  predicate IsEmpty(o: Oracles, f: Filter)
    ensures IsEmpty(o, f) ==> !f.defaultSettings && f.service.None? && f.localName.None? &&
                              f.remoteBits == 0 && f.localBits == 0 && f.filterName.None?
  {
    FiltersEqual(o, f, EmptyFilter)
  }

  /** config_filter_is_empty_defaults. */
  predicate IsEmptyDefaults(o: Oracles, f: Filter)
    ensures IsEmptyDefaults(o, f) ==> f.defaultSettings && f.service.None? && f.localName.None? &&
                                      f.remoteBits == 0 && f.localBits == 0 && f.filterName.None?
  {
    FiltersEqual(o, f, EmptyDefaultsFilter)
  }

  /** net_ip_compare treats every address as equal to itself. */
  ghost predicate IpCompareReflexive(o: Oracles)
  {
    forall a :: o.netIpCompare(a, a)
  }

  /** net_ip_compare does not depend on the order of its arguments. */
  ghost predicate IpCompareSymmetric(o: Oracles)
  {
    forall a, b :: o.netIpCompare(a, b) == o.netIpCompare(b, a)
  }

  /** Every filter equals itself. */
  lemma {:induction false} EqualReflexive(o: Oracles, f: Filter)
    requires IpCompareReflexive(o)
    ensures FiltersEqual(o, f, f)
  {
    EqualWithoutDefaultsReflexive(o, f);
  }

  lemma {:induction false} EqualWithoutDefaultsReflexive(o: Oracles, f: Filter)
    requires IpCompareReflexive(o)
    ensures EqualWithoutDefaults(o, f, f)
    decreases Depth(f)
  {
    assert o.netIpCompare(f.remoteNet, f.remoteNet) && o.netIpCompare(f.localNet, f.localNet);
    if f.parent.Some? {
      EqualWithoutDefaultsReflexive(o, f.parent.value);
    }
  }

  /** Equality does not depend on the order of the two filters. */
  lemma {:induction false} EqualSymmetric(o: Oracles, f1: Filter, f2: Filter)
    requires IpCompareSymmetric(o)
    ensures FiltersEqual(o, f1, f2) == FiltersEqual(o, f2, f1)
  {
    EqualWithoutDefaultsSymmetric(o, f1, f2);
  }

  lemma {:induction false} EqualWithoutDefaultsSymmetric(o: Oracles, f1: Filter, f2: Filter)
    requires IpCompareSymmetric(o)
    ensures EqualWithoutDefaults(o, f1, f2) == EqualWithoutDefaults(o, f2, f1)
    decreases Depth(f1) + Depth(f2)
  {
    assert o.netIpCompare(f1.remoteNet, f2.remoteNet) == o.netIpCompare(f2.remoteNet, f1.remoteNet);
    assert o.netIpCompare(f1.localNet, f2.localNet) == o.netIpCompare(f2.localNet, f1.localNet);
    assert NullStrCaseEqual(f1.localName, f2.localName) == NullStrCaseEqual(f2.localName, f1.localName);
    if f1.parent.Some? || f2.parent.Some? {
      EqualWithoutDefaultsSymmetric(o, ParentOrEmpty(f1), ParentOrEmpty(f2));
    }
  }

  /** One level that sets nothing: no service, local name, networks or
      filter name. The addresses only have to compare equal to the zero
      address. */
  ghost predicate Blank(o: Oracles, f: Filter)
  {
    && f.service.None? && f.localName.None?
    && f.remoteBits == 0 && o.netIpCompare(f.remoteNet, ZeroIp)
    && f.localBits == 0 && o.netIpCompare(f.localNet, ZeroIp)
    && f.filterName.None? && !f.filterNameArray
  }

  /** A filter is empty exactly when its own default_settings is unset and
      every level of its chain is blank; default_settings of the ancestors
      does not matter. */
  lemma IsEmptyIffAllLevelsBlank(o: Oracles, f: Filter)
    ensures IsEmpty(o, f) <==>
              !f.defaultSettings && forall g :: g in Chain(f) ==> Blank(o, g)
  {
    EqualEmptyIffAllLevelsBlank(o, f);
  }

  /** The same with default_settings set at the top. */
  lemma IsEmptyDefaultsIffAllLevelsBlank(o: Oracles, f: Filter)
    ensures IsEmptyDefaults(o, f) <==>
              f.defaultSettings && forall g :: g in Chain(f) ==> Blank(o, g)
  {
    EqualEmptyIffAllLevelsBlank(o, f);
    assert EqualWithoutDefaults(o, f, EmptyDefaultsFilter) == EqualWithoutDefaults(o, f, EmptyFilter) by {
      EqualWithoutDefaultsIgnoresDefaults(o, f, EmptyDefaultsFilter);
      EqualWithoutDefaultsIgnoresDefaults(o, f, EmptyFilter);
      assert ClearDefaults(EmptyDefaultsFilter) == ClearDefaults(EmptyFilter);
    }
  }

  lemma {:induction false} EqualEmptyIffAllLevelsBlank(o: Oracles, f: Filter)
    ensures EqualWithoutDefaults(o, f, EmptyFilter) <==> forall g :: g in Chain(f) ==> Blank(o, g)
    decreases Depth(f)
  {
    if f.parent.Some? {
      var p := f.parent.value;
      EqualEmptyIffAllLevelsBlank(o, p);
      assert Chain(f) == [f] + Chain(p);
      assert (forall g :: g in Chain(f) ==> Blank(o, g)) <==>
             Blank(o, f) && forall g :: g in Chain(p) ==> Blank(o, g);
      assert EqualWithoutDefaults(o, f, EmptyFilter) ==
             (EqualNoRecursion(o, f, EmptyFilter) && EqualWithoutDefaults(o, p, EmptyFilter));
    } else {
      assert Chain(f) == [f];
      assert (forall g :: g in Chain(f) ==> Blank(o, g)) <==> Blank(o, f);
      assert EqualWithoutDefaults(o, f, EmptyFilter) == EqualNoRecursion(o, f, EmptyFilter);
    }
    assert Blank(o, f) == EqualNoRecursion(o, f, EmptyFilter);
  }

  /** The filter with default_settings cleared at every level. */
  function ClearDefaults(f: Filter): (r: Filter)
    ensures Depth(r) == Depth(f)
  {
    match f.parent
    case None => f.(defaultSettings := false)
    case Some(p) => f.(defaultSettings := false, parent := Some(ClearDefaults(p)))
  }

  /** config_filters_equal_without_defaults never looks at default_settings,
      at any level. */
  lemma {:induction false} EqualWithoutDefaultsIgnoresDefaults(o: Oracles, f1: Filter, f2: Filter)
    ensures EqualWithoutDefaults(o, f1, f2) == EqualWithoutDefaults(o, ClearDefaults(f1), ClearDefaults(f2))
    decreases Depth(f1) + Depth(f2)
  {
    var c1, c2 := ClearDefaults(f1), ClearDefaults(f2);
    assert EqualNoRecursion(o, f1, f2) == EqualNoRecursion(o, c1, c2);
    if f1.parent.Some? || f2.parent.Some? {
      EqualWithoutDefaultsIgnoresDefaults(o, ParentOrEmpty(f1), ParentOrEmpty(f2));
      assert ClearDefaults(EmptyFilter) == EmptyFilter;
      assert ParentOrEmpty(c1) == ClearDefaults(ParentOrEmpty(f1));
      assert ParentOrEmpty(c2) == ClearDefaults(ParentOrEmpty(f2));
    }
  }

  /** Hence config_filters_equal compares default_settings only at the top:
      two filters are equal iff their top flags agree and they are equal
      with every flag cleared. */
  lemma DefaultsComparedAtTopOnly(o: Oracles, f1: Filter, f2: Filter)
    ensures FiltersEqual(o, f1, f2) <==>
              f1.defaultSettings == f2.defaultSettings &&
              FiltersEqual(o, ClearDefaults(f1), ClearDefaults(f2))
  {
    EqualWithoutDefaultsIgnoresDefaults(o, f1, f2);
  }

  /** A NULL parent compares equal to a parent that is an empty root filter,
      and to no other parent. */
  lemma NullParentEqualsEmptyParent(o: Oracles, f: Filter, p: Filter)
    requires IpCompareReflexive(o) && IpCompareSymmetric(o)
    requires f.parent.None?
    ensures FiltersEqual(o, f, f.(parent := Some(p))) <==> EqualWithoutDefaults(o, p, EmptyFilter)
  {
    assert o.netIpCompare(f.remoteNet, f.remoteNet) && o.netIpCompare(f.localNet, f.localNet);
    assert EqualNoRecursion(o, f, f.(parent := Some(p)));
    EqualWithoutDefaultsSymmetric(o, EmptyFilter, p);
  }

  /** The local name is compared ignoring ASCII case. */
  lemma LocalNameIgnoresCase(o: Oracles, f: Filter, a: string, b: string)
    requires IpCompareReflexive(o)
    requires StrCaseEqual(a, b)
    ensures EqualNoRecursion(o, f.(localName := Some(a)), f.(localName := Some(b)))
  {
    assert o.netIpCompare(f.remoteNet, f.remoteNet) && o.netIpCompare(f.localNet, f.localNet);
  }

  /** The service and the filter name are compared exactly: "imap" and
      "IMAP" differ as services but agree as local names. */
  lemma CaseMattersExceptInLocalName(o: Oracles, f: Filter)
    requires IpCompareReflexive(o)
    ensures !EqualNoRecursion(o, f.(service := Some("imap")), f.(service := Some("IMAP")))
    ensures !EqualNoRecursion(o, f.(filterName := Some("imap")), f.(filterName := Some("IMAP")))
    ensures EqualNoRecursion(o, f.(localName := Some("imap")), f.(localName := Some("IMAP")))
  {
    assert "imap"[0] != "IMAP"[0];
    LocalNameIgnoresCase(o, f, "imap", "IMAP");
  }
}
