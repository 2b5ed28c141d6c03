# Configuration filters, quota data model and bsdauth passdb

A Dafny model of three pieces of a mail server.

- **Configuration filters** (`ConfigFilter`, config_filter.dfy). A filter scopes a block of settings. It can name a service (a leading `!` negates it), a space-separated list of local names, a remote and a local network with prefix lengths, and a filter name. It may sit inside a parent filter. The model covers:
  - three-valued matching of a lookup mask against a filter: 1 matches, 0 is a mismatch, -1 means the filter lacks something the mask asks about;
  - the walk up both parent chains together;
  - field-by-field equality of two filters, where a missing parent counts as the empty root filter.

  `match_service`, `match_no_recurse` and the equality routines are functions. `match_local_name`, `match_rest` and `config_filter_match` step through state, so they are methods, each proved equal to a specification function.
- **Quota data model** (`Quota`, quota.dfy). This part models the plugin's private header:
  - backends, which are identified by name, and the registry that finds them by name;
  - quota roots, with their flags and the `recounting` recursion guard of `quota_count`;
  - the per-user quota, whose `all_roots` grows lazily with one root per quota name;
  - the transaction context, with its usage deltas, ceilings and over-amounts.

  The classes' `Valid()` invariants and their methods' contracts hold the header's documented rules: a ceiling and its over-amount are never both nonzero, the grace ceiling collapses to the real ceiling at the first allocation, limits are set once, an auto-updating root's bytes are left alone, and a transaction is auto-updating iff all its roots are.
- **bsdauth passdb** (`PassdbBsdauth`, passdb_bsdauth.dfy). It parses the one-option argument string into a module record, and maps the system password check to exactly one callback result.

The routines these files call but do not define are parameters of the model: `dns_match_wildcard`, `net_is_in_network`, `net_ip_compare`, `auth_userokay` and `auth_cache_parse_key`. A backend's reply to a usage query is a `Probe` value. `strcasecmp` is written out for the C locale: only ASCII letters fold. `null_strcmp` is equality of optional strings.

## Model

| member | source | states |
|---|---|---|
| `ConfigFilter.MatchService` | src/config/config-filter.c:16-32 | A mask without a service gives 1. A mask with a service against a filter without one gives -1. Otherwise the result is 1 iff the pattern accepts the service (`!svc` accepts every service but `svc`, any other pattern only itself), and 0 otherwise. |
| `ConfigFilter.FindSpace` | src/config/config-filter.c:41 | `strchr(s, ' ')`: the offset found holds a space and no earlier character is a space. When nothing is found, the string contains no space. |
| `ConfigFilter.SplitElementsHaveNoSpace` | src/config/config-filter.c:38-47 | No element of a split local_name list contains a space. |
| `ConfigFilter.JoinSplit` | src/config/config-filter.c:38-47 | Joining the split elements with spaces gives back the original list, so every element, the last one included, appears. |
| `ConfigFilter.SplitJoin` | src/config/config-filter.c:38-47 | Splitting a space-joined list of space-free names gives exactly those names. |
| `ConfigFilter.FindSpaceAfterWord` | src/config/config-filter.c:41 | strchr finds the space right after a space-free first word. |
| `ConfigFilter.ThreeNameList` | src/config/config-filter.c:38-39 | The documented example list splits into its three names. |
| `ConfigFilter.MatchLocalName` | src/config/config-filter.c:34-48 | The loop returns true iff some space-separated element of the mask's local_name wildcard-matches the filter's name, the element after the last space included. |
| `ConfigFilter.MatchRest` | src/config/config-filter.c:50-84 | 0 iff some field set by both the mask and the filter disagrees (local name, remote network, local network). -1 iff there is no such mismatch and some field set by the mask is missing from the filter, so a mismatch overrides an earlier -1. 1 otherwise. |
| `ConfigFilter.MatchNoRecurse` | src/config/config-filter.c:86-96 | 0 iff the service or the rest gives 0. 1 iff both give 1. -1 otherwise. |
| `ConfigFilter.LevelsMatchCons` | src/config/config-filter.c:101-106 | Two chains match level by level iff their first levels match with 1 and the rest of the chains match. |
| `ConfigFilter.Match` | src/config/config-filter.c:98-108 | True iff the mask's and the filter's parent chains have the same length and every paired level matches with 1. In particular chains of different depth never match. |
| `ConfigFilter.EqualNoRecursion` | src/config/config-filter.c:110-134 | One level's fields compared as the C does: exact service and filter name (NULL equals only NULL), equal prefix lengths and `net_ip_compare` on both networks, case-insensitive local name, equal `filter_name_array`. Its properties are stated by `LocalNameIgnoresCase` and `CaseMattersExceptInLocalName`. |
| `ConfigFilter.EqualWithoutDefaults` | src/config/config-filter.c:136-151 | Level equality all the way up both chains, with a missing parent read as the empty filter. Its properties are stated by `EqualWithoutDefaultsReflexive`, `EqualWithoutDefaultsSymmetric`, `EqualWithoutDefaultsIgnoresDefaults` and `NullParentEqualsEmptyParent`. |
| `ConfigFilter.FiltersEqual` | src/config/config-filter.c:153-163 | Equal filters have the same top-level default_settings and equal top levels. `EqualReflexive`, `EqualSymmetric` and `DefaultsComparedAtTopOnly` state the rest. |
| `ConfigFilter.IsEmpty` | src/config/config-filter.c:165-168 | An empty filter has default_settings unset and sets no service, local name, network or filter name. `IsEmptyIffAllLevelsBlank` gives the full characterisation. |
| `ConfigFilter.IsEmptyDefaults` | src/config/config-filter.c:170-173 | Such a filter has default_settings set and sets no service, local name, network or filter name. `IsEmptyDefaultsIffAllLevelsBlank` gives the full characterisation. |
| `ConfigFilter.EqualReflexive` | src/config/config-filter.c:110-163 | Every filter equals itself, provided net_ip_compare is reflexive. |
| `ConfigFilter.EqualWithoutDefaultsReflexive` | src/config/config-filter.c:136-151 | Equality without default_settings is reflexive at every level. |
| `ConfigFilter.EqualSymmetric` | src/config/config-filter.c:110-163 | Equality does not depend on argument order, provided net_ip_compare is symmetric. |
| `ConfigFilter.EqualWithoutDefaultsSymmetric` | src/config/config-filter.c:136-151 | The recursive equality, including its substitution of the empty filter for a missing parent, is symmetric. |
| `ConfigFilter.EqualWithoutDefaultsIgnoresDefaults` | src/config/config-filter.c:136-151 | The recursive equality never reads default_settings at any level. |
| `ConfigFilter.DefaultsComparedAtTopOnly` | src/config/config-filter.c:153-162 | Two filters are equal iff their top-level default_settings agree and they are equal with default_settings cleared at every level. |
| `ConfigFilter.NullParentEqualsEmptyParent` | src/config/config-filter.c:142-148 | A filter with no parent equals the same filter with parent `p` iff `p` equals the empty root filter (ignoring default_settings). |
| `ConfigFilter.LocalNameIgnoresCase` | src/config/config-filter.c:126-127 | Local names that are equal up to ASCII case leave two otherwise equal levels equal. |
| `ConfigFilter.CaseMattersExceptInLocalName` | src/config/config-filter.c:113-130 | "imap" and "IMAP" differ as services and as filter names, but are equal as local names. |
| `ConfigFilter.EqualEmptyIffAllLevelsBlank` | src/config/config-filter.c:136-168 | A filter equals the empty filter (ignoring default_settings) iff every level of its chain is blank. |
| `ConfigFilter.IsEmptyIffAllLevelsBlank` | src/config/config-filter.c:165-168 | `config_filter_is_empty` holds iff the top default_settings is unset and every level of the chain sets no service, local name, network or filter name. |
| `ConfigFilter.IsEmptyDefaultsIffAllLevelsBlank` | src/config/config-filter.c:170-173 | `config_filter_is_empty_defaults` holds iff the top default_settings is set and every level is blank. |
| `Quota.FindIn` | src/plugins/quota/quota-private.h:158 | Finds a backend iff one with that exact name is in the list, and the one found carries that name. |
| `Quota.RemoveNamed` | src/plugins/quota/quota-private.h:160 | What remains after removing a name comes from the list and never carries that name. |
| `Quota.FindAfterRemove` | src/plugins/quota/quota-private.h:158-160 | After a name is removed, that name finds nothing and every other name finds what it found before. |
| `Quota.RemoveKeepsUnique` | src/plugins/quota/quota-private.h:160 | Removing a name keeps the registry free of duplicate names. |
| `Quota.BackendRegistry.constructor` | src/plugins/quota/quota-private.h:158-160 | The registry starts empty, so no name finds a backend. |
| `Quota.BackendRegistry.Find` | src/plugins/quota/quota-private.h:158 | Lookup is by name only: a backend is found iff one of that name is registered. |
| `Quota.BackendRegistry.Register` | src/plugins/quota/quota-private.h:159 | Adds the backend iff its name is not registered yet. Afterwards the name finds a backend equal to it by name. |
| `Quota.BackendRegistry.Unregister` | src/plugins/quota/quota-private.h:160 | Afterwards the backend's name finds nothing, and other names are unaffected. |
| `Quota.QuotaRoot.Valid` | src/plugins/quota/quota-private.h:74-80 | The invariant of a root: both limits fit in int64, and no namespace is bound twice. `AddNamespace` and `AddUserNamespace` preserve it. |
| `Quota.QuotaRoot.constructor` | src/plugins/quota/quota-private.h:66-100 | The limits start as the configured ones. The recursion guard is clear and no namespace is bound. |
| `Quota.QuotaRoot.OverrideLimits` | src/plugins/quota/quota-private.h:77-80 | A backend may replace the configured byte and message limits. |
| `Quota.QuotaRoot.AddNamespace` | src/plugins/quota/quota-private.h:38-40 | A namespace is bound at most once. `added` is true exactly the one time it is new. |
| `Quota.QuotaRoot.Count` | src/plugins/quota/quota-private.h:144-147 | Returns 0 iff the root is already being counted. Returns 1 with the backend's byte and message values iff both queries give LIMITED. Returns -1 otherwise. The recounting flag is back to its old value on every return. |
| `Quota.QuotaRoot.AskBackend` | src/plugins/quota/quota-private.h:43-49 | While the guard is set, a nested quota_count on the same root gets 0 and the backend's final answer decides the result. Backends are assumed never to answer UNLIMITED, as quota-private.h:43-45 requires of them. |
| `Quota.QuotaRoot.Update` | src/plugins/quota/quota-private.h:87-91 | After a successful update the backend's count changes by the transaction's count delta. Its bytes change by the byte delta unless the root is auto-updating, in which case they stay unchanged. |
| `Quota.FindRoot` | src/plugins/quota/quota-private.h:20-24 | Finds a root iff one with that quota name is in the list. |
| `Quota.UserQuota.constructor` | src/plugins/quota/quota-private.h:17-24 | All roots start as the global private roots. |
| `Quota.UserQuota.Valid` | src/plugins/quota/quota-private.h:17-24 | The invariant of the per-user quota: every global private root is among all roots, all roots have distinct quota names, and each root is valid. |
| `Quota.UserQuota.AddUserNamespace` | src/plugins/quota/quota-private.h:20-24 | Binds the namespace to the root of that quota name. The root is created and appended to all roots only the first time the name is seen. It then carries the configured backend, limits and flags, its recursion guard and over-status flag are clear, and its usage is zero; an existing root gets the namespace appended only if it is new, and keeps its limits, guard, flags and usage. Every other root is unchanged, as are the global roots, and names stay unique. |
| `Quota.QuotaTransaction.constructor` | src/plugins/quota/quota-private.h:102-134 | The transaction is auto-updating iff every one of its roots is. It starts with no usage and no limits. |
| `Quota.QuotaTransaction.Valid` | src/plugins/quota/quota-private.h:111-131 | The transaction invariant, kept by every method. All ceilings and over-amounts fit in uint64. For bytes and for count, the ceiling or the over-amount is zero. The byte ceiling is the real ceiling `bytes_ceil2`, or that plus the grace, and after the first allocation it is the real ceiling. auto_updating holds iff every root is auto-updating. |
| `Quota.QuotaTransaction.RecordLimits` | src/plugins/quota/quota-private.h:111-128 | Limits are stored once and later calls change nothing. A failed computation marks the transaction failed. The invariant keeps ceiling and over-amount exclusive. |
| `Quota.QuotaTransaction.Alloc` | src/plugins/quota/quota-private.h:110-118 | Usage grows by the size and one message. From the first allocation on, the byte ceiling equals the real ceiling. The other ceilings and the over-amounts are untouched. |
| `Quota.QuotaTransaction.Account` | src/plugins/quota/quota-private.h:110-122 | A change to bytes_used or count_used, negative ones included, leaves every ceiling and over-amount as set. |
| `PassdbBsdauth.Preinit` | src/auth/passdb-bsdauth.c:39-55 | Scheme is always PLAIN. Empty args give a blocking module with no cache key. `blocking=no` clears blocking only. `cache_key=...` keeps blocking and takes the cache key from the text after the 10-character prefix. Any other non-empty string is fatal, with the unknown-setting message. |
| `PassdbBsdauth.FormatThenPreinit` | src/auth/passdb-bsdauth.c:44-53 | Every option written as an argument string is parsed back into exactly the record that option stands for. |
| `PassdbBsdauth.OneOptionPerString` | src/auth/passdb-bsdauth.c:48-53 | Only one option is accepted per string. After `blocking=no` a second option is fatal, and after `cache_key=` it becomes part of the key. |
| `PassdbBsdauth.VerifyPlain` | src/auth/passdb-bsdauth.c:16-37 | The callback runs exactly once, for the same request. It gets PASSWORD_MISMATCH iff auth_userokay(user, "auth-"+service, password) returns 0, and OK otherwise. |

## Left out

- src/lib-lda/smtp-client.c: network and process I/O (SMTP/LMTP connections, temporary files, the sendmail process).
- src/lib-master/master-service-ssl.c: copying settings into an external TLS library.
- src/plugins/var-expand-crypt/test-var-expand-crypt.c: foreign cryptography with random IVs.
- src/stats/stats-metrics.h, src/lib-storage/lang-user.h, src/lib-storage/index/shared/shared-storage.h, src/dict/dict-init-cache.h: declarations with no behaviour.
- Foreign helpers: `dns_match_wildcard`, `net_is_in_network`, `net_ip_compare`, `auth_userokay` and `auth_cache_parse_key` are parameters, and nothing is assumed about them beyond what each lemma requires (reflexivity or symmetry of `net_ip_compare`).
- ConfigFilter.StrCaseEqual: folds only ASCII letters, as `strcasecmp` does in the C locale. Other locales are not modelled.
- Logging (`e_debug`, `auth_request_log_password_mismatch`) is dropped. `i_fatal` becomes the `Fatal` result instead of ending the process.
- `bsdauth_deinit` (`endpwent`) and the `passdb_bsdauth` interface tables: process-level I/O and registration glue.
- PassdbBsdauth.PassdbResult: holds only the two results this database produces. The other passdb results are declared in a header that is not part of this model.
- Quota bodies: quota.c is not part of this model. So `quota_transaction_set_limits`, `quota_transaction_is_over`, `quota_warning_match`, `quota_root_default_init`, `quota_get_mail_user_quota`, `quota_remove_user_namespace` and transaction commit are not modelled, and no limit, over-limit or warning arithmetic is invented.
- Quota.QuotaTransaction.RecordLimits: accepts a byte ceiling equal to the real ceiling or to the real ceiling plus the grace. Which of the two applies is decided by the limit computation, which is not modelled. It also requires the limits to be recorded before the first allocation.
- Quota.QuotaTransaction.Alloc: bytes_used and count_used are unbounded integers, so 64-bit signed overflow is not modelled.
- Quota.QuotaTransaction.constructor: `recalculate` starts as `Dont` and nothing changes it, because its setter is not declared in the header. The header does not declare the enum's values.
- Quota plumbing: pools, events, `mail_user`, `tmp_mail`, module contexts, the `test_alloc` hook and `vsizes` flag of struct quota, `quota_over_status_checked` updates, and the backend vtable's `alloc`, `init`, `deinit`, `get_resources`, `match_box` and `flush` (backend I/O).
- Quota.QuotaRoot.Count: the backend's replies are `Probe` values. Which resources are queried, and the error text, are not modelled.
