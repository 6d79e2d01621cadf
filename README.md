# Email verification pipeline — a Dafny model

This project models the decision logic of an email-address verification
pipeline and proves properties of it. The pipeline is made of several parts:

- a syntax test;
- an MX-or-A DNS check backed by a resolver cache;
- an SMTP mailbox probe over the domain's mail exchangers, with transport
  fallback;
- a greylist table of deferred addresses and a retry worker that re-probes
  them with exponential backoff;
- SPF, DMARC and DKIM record checks;
- DNSBL reputation lookups;
- a disposable-domain list cached in a file;
- the two verdict functions of the application.

Everything on the network is an input. DNS lookups are functions from a name
to a response. An SMTP connection attempt is a function of host and
transport, and so is the session that follows it. HTTP fetches are a function
of the URL. The clock is a `now` parameter. The greylist table is a
`map<string, Record>` held by a store object, and the cache file is its text
and its modification time.

Modules, one per source file:

| module | file | source |
|---|---|---|
| `Wrappers` | `wrappers.dfy` | `Option` |
| `Text` | `text.dfy` | the Python string operations used: `strip`, ASCII `lower`, `split`, `join`, `reversed`, `startswith`, `in`, `rstrip`, and first-match search |
| `Dns` | `dns.dfy` | the responses a lookup can give |
| `GreylistDb` | `greylist_db.dfy` | `greylist_db.py` |
| `GreylistRetry` | `greylist_retry.dfy` | `greylist_retry.py` |
| `DnsUtils` | `dns_utils.dfy` | `dns_utils.py` |
| `Reputation` | `reputation.dfy` | `reputation_utils.py` |
| `DisposableCache` | `disposable_cache.dfy` | `disposable_cache.py` |
| `EmailVerifier` | `email_verifier.dfy` | `source_code.py` |
| `Verdict` | `verdict.dfy` | `main.py`, lines 29-38 and 162-175 |

Code that changes state step by step is modelled as methods:

- the store's upserts, due-query and delete;
- one retry pass;
- the resolver's cached query;
- `verify_email`, `check_mx_reputation` and the cache refresh.

Each method is proved against a pure specification function, and the
properties are lemmas about those functions. The rest is functions and
lemmas.

Behaviour of the code worth knowing, which the model follows:

- A non-250, non-4yz RCPT reply does not end the walk over exchangers;
  `verify_email` moves on to the next exchanger.
- `verify_email` catches only `NoAnswer` around its MX lookup. NXDOMAIN, a
  timeout, another DNS error, or (before that) an address without `@`
  propagate as an exception (`Raised`), and `label_email` propagates it too.
- A refresh in which no source answers 200 writes an empty list over the
  cache file. The previous list is not kept (`AllSourcesFailed`).
- The status indicator shows a deliverable disposable address as invalid.
  `label_email` labels the same address `Risky` (`LabelAgreesWithStatus`).
- `check_auth_protocols` in source_code.py:147-153 is the same function as
  dns_utils.py:47-53. It is modelled once, as `DnsUtils.CheckAuthProtocols`.

## Specification functions

Some source functions are modelled by a Dafny function or predicate that has
no contract of its own. Each of these is characterised by the lemmas named in
its row, which have rows of their own under "## Model":

| function | source | characterised by |
|---|---|---|
| GreylistDb.Upserted | greylist_db.py:48-62 | UpsertAbsent, UpsertPresent, UpsertFramed, UpsertInvariants, UpsertTwice |
| GreylistRetry.Step, GreylistRetry.PassTable | greylist_retry.py:13-20 | PassFramed, PassOutcome, PassDeletesResolved, PassInvariants, PassNoResurrection, RemovedByThirdDuePass |
| DnsUtils.HasSpf | dns_utils.py:19-24 | HasSpfMeaning |
| DnsUtils.HasDmarc | dns_utils.py:27-32 | HasDmarcMeaning |
| DnsUtils.HasDkim | dns_utils.py:35-44 | HasDkimMeaning, DkimSelectorsMeaning, DkimReadsOnlyQueried |
| Reputation.ReverseIp | reputation_utils.py:15-16 | ReverseIpLabels, ReverseIpInvolution |
| Reputation.LookupDnsbl | reputation_utils.py:19-30 | LookupDnsblMeaning, SecondZoneListing, NoZoneListing |
| DisposableCache.Refreshed | disposable_cache.py:16-24 | RefreshedMeaning, ContributionRefreshed, RefreshedNormalised, RefreshedConcat, FailedSourceIgnored, AllSourcesFailed |
| DisposableCache.LoadedSet | disposable_cache.py:43-44 | LoadedNormalised, LoadAfterWrite, WrittenReadsBack |
| DisposableCache.CacheExpired | disposable_cache.py:32-35 | CacheExpiryBoundary |
| EmailVerifier.QueryDnsResult, EmailVerifier.CacheAfterQuery | source_code.py:33-58 | QueryDnsMeaning, QueryDnsFailure, QueryKeysIndependent |
| EmailVerifier.HasValidMx | source_code.py:61-83 | HasValidMxMeaning |
| EmailVerifier.ChooseTransport | source_code.py:98-108 | ChooseTransportInOrder |
| EmailVerifier.DomainPart | source_code.py:89 | DomainPartMeaning |
| EmailVerifier.VerifyEmailSpec, EmailVerifier.GreylistHost | source_code.py:87-123 | VerifyEmailMeaning |
| EmailVerifier.Disposable | source_code.py:127-129 | DisposableMeaning |
| EmailVerifier.Stop, EmailVerifier.ReputationOf | source_code.py:132-144 | StopListed, ListedStop, StopMeaning, ReputationMeaning |
| Verdict.LabelEmail | main.py:29-38 | LabelEmailMeaning, LabelAgreesWithStatus |
| Verdict.StatusOf | main.py:162-175 | StatusMeaning, LabelAgreesWithStatus |

## Model

| member | source | states |
|---|---|---|
| GreylistDb.UpsertAbsent | greylist_db.py:48-54 | upserting an absent address adds exactly that one key (size grows by one) with tries 1, last_try now, next_try now + retry_delay |
| GreylistDb.UpsertPresent | greylist_db.py:55-59 | upserting a present address keeps the key set and size; tries goes up by one and mx_host, last_try and next_try are overwritten |
| GreylistDb.UpsertFramed | greylist_db.py:53-61 | an upsert leaves every other address's row, and its presence, unchanged |
| GreylistDb.UpsertInvariants | greylist_db.py:49-50 | the written row has next_try - last_try == retry_delay; tries >= 1 is preserved, and next_try > last_try is preserved for a positive delay |
| GreylistDb.UpsertTwice | greylist_db.py:55-59 | two upserts of one address leave one row whose count went up by two |
| GreylistDb.LimitCount | greylist_db.py:68-69 | `LIMIT` lets through at most the available rows, at most `limit` of them when it is non-negative, and either all or exactly `limit` |
| GreylistDb.GreylistStore.constructor | greylist_db.py:9-17 | the table starts empty and valid |
| GreylistDb.GreylistStore.UpsertSync | greylist_db.py:48-62 | the new table is the upsert of the old one, whatever `tries` is passed; tries >= 1 is kept |
| GreylistDb.GreylistStore.Upsert | greylist_db.py:33-46 | the asynchronous upsert has the same effect on the table as the synchronous one |
| GreylistDb.GreylistStore.FetchDue | greylist_db.py:64-71 | rows are current records with next_try <= now, each address at most once, and their number is min(due, limit) (all when limit is negative) |
| GreylistDb.GreylistStore.Delete | greylist_db.py:73-76 | the new table is the old one without the address |
| GreylistDb.DeleteEffect | greylist_db.py:75 | delete removes exactly the address; other rows are unchanged; deleting an absent address changes nothing |
| GreylistRetry.ProbeEmail | greylist_retry.py:23-33 | the probe succeeds exactly when RCPT answered 250; any exception gives failure |
| GreylistRetry.BackoffGrows | greylist_retry.py:20 | the delay 600 * 2^tries is positive and strictly increasing in tries |
| GreylistRetry.BackoffValues | greylist_retry.py:20 | tries 1 gives 1200 s and tries 2 gives 2400 s |
| GreylistRetry.PassFramed | greylist_retry.py:13-20 | a record not in the fetched batch is untouched by the pass |
| GreylistRetry.PassOutcome | greylist_retry.py:14-20 | a batch row is deleted when its probe succeeded or tries >= 3; otherwise it becomes (mx_host, now, now + 600 * 2^tries, tries + 1) for the fetched tries |
| GreylistRetry.PassDeletesResolved | greylist_retry.py:15-17 | after the pass a batch address is present exactly when it was not resolved |
| GreylistRetry.PassInvariants | greylist_retry.py:16-20 | a pass keeps tries >= 1 and next_try > last_try for every record |
| GreylistRetry.PassNoResurrection | greylist_retry.py:13-20 | a pass never brings back an absent address |
| GreylistRetry.RemovedByThirdDuePass | greylist_retry.py:9-20 | a record at tries 1 that is in each pass's batch while present, with nothing else writing to it, is gone after the third pass whatever the probes say |
| GreylistRetry.RetryPass | greylist_retry.py:13-20 | one worker iteration fetches min(due, 50) due rows and leaves the table the fold of the per-row delete-or-reschedule over the batch |
| DnsUtils.ConcatSplitAnywhere | dns_utils.py:14 | joining a record's character-strings does not depend on where the record was cut into strings |
| DnsUtils.SafeTxtQuery | dns_utils.py:10-16 | `None` exactly when the lookup raised; otherwise one string per record, each the in-order concatenation of its character-strings |
| DnsUtils.HasSpfMeaning | dns_utils.py:19-24 | SPF holds iff the lookup answered and some record, lower-cased, starts with `v=spf1` |
| DnsUtils.HasDmarcMeaning | dns_utils.py:27-32 | DMARC holds iff the answer for `_dmarc.` + domain has a record containing `v=dmarc1` in any case, and it depends on no other name |
| DnsUtils.HasDkimMeaning | dns_utils.py:35-44 | DKIM holds iff one of the six selectors publishes a `v=dkim1` record; the names asked follow the selector order and stop at the first hit |
| DnsUtils.DkimReadsOnlyQueried | dns_utils.py:40-43 | a resolver agreeing on the names asked gives the same verdict and the same queries, so later selectors matter only when earlier ones fail |
| DnsUtils.DkimPublishedMeaning | dns_utils.py:41-42 | a selector counts iff its `<selector>._domainkey.<domain>` lookup answers and some record, joined and lower-cased, contains `v=dkim1` |
| DnsUtils.DkimSelectorsMeaning | dns_utils.py:35-44 | DKIM holds iff one of the six selector names has such a record |
| DnsUtils.CheckAuthProtocols | dns_utils.py:47-53 | on the raw TXT answers: spf iff the domain answers with a record starting with `v=spf1`; dkim iff one of the six selector names answers with a record containing `v=dkim1`; dmarc iff `_dmarc.<domain>` answers with a record containing `v=dmarc1`; case is ignored throughout |
| Reputation.ReverseIpLabels | reputation_utils.py:15-16 | the labels of the reversed name are the input's labels in reverse order, with as many labels |
| Reputation.ReverseIpInvolution | reputation_utils.py:16 | reversing twice gives the address back |
| Reputation.FirstListing | reputation_utils.py:22-30 | the zone index returned is the first whose query `rev + "." + zone` resolves; no earlier zone resolves |
| Reputation.LookupDnsblMeaning | reputation_utils.py:19-30 | listed iff some zone answers; the first zone (zen.spamhaus.org) is always asked, and bl.spamcop.net only when it did not answer |
| Reputation.SecondZoneListing | reputation_utils.py:22-29 | no answer from the first zone but an answer from the second still means listed |
| Reputation.NoZoneListing | reputation_utils.py:30 | no zone answering means not listed |
| DisposableCache.NormaliseLine | disposable_cache.py:22 | `strip().lower()` gives a stripped, lower-case string, empty exactly when the line is all whitespace, with no character outside the line except lower-case letters |
| DisposableCache.NormaliseLineMeaning | disposable_cache.py:22 | normalising leaves a normalised string unchanged, so it is idempotent |
| DisposableCache.SourceDomains | disposable_cache.py:21-22 | every domain a reply contributes is stripped, lower-case and free of newlines (and it contributes d iff it is a 200 reply with a non-empty line that normalises to d) |
| DisposableCache.ContributionRefreshed | disposable_cache.py:18-22 | whatever one source contributes is in the refreshed set |
| DisposableCache.RefreshedMeaning | disposable_cache.py:17-24 | the refreshed set is exactly the union of the contributions of the sources that answered 200 |
| DisposableCache.RefreshedNormalised | disposable_cache.py:22 | every refreshed domain is stripped, lower-case and free of newlines |
| DisposableCache.RefreshedConcat | disposable_cache.py:18-24 | refreshing from two runs of sources gives the union of each |
| DisposableCache.FailedSourceIgnored | disposable_cache.py:19-24 | a failed or non-200 source can be dropped without changing the result, so it neither contributes nor aborts |
| DisposableCache.AllSourcesFailed | disposable_cache.py:16-27 | when no source answers 200 the refreshed set is empty |
| DisposableCache.LoadedNormalised | disposable_cache.py:44 | every loaded domain is non-empty, stripped and lower-case |
| DisposableCache.LoadAfterWrite | disposable_cache.py:26-44 | normalised domains without line breaks, joined by newlines and read back, give the same set without the empty string |
| DisposableCache.CacheExpiryBoundary | disposable_cache.py:32-35 | the cache is expired iff the file is missing or strictly more than 86400 s old |
| DisposableCache.ListSet | disposable_cache.py:27 | the listing written holds each domain of the set exactly once |
| DisposableCache.WrittenReadsBack | disposable_cache.py:26-44 | a listed set of normalised domains without carriage returns reads back as itself without the empty string |
| DisposableCache.RefreshCache | disposable_cache.py:16-29 | the set built is the union over the three sources, the file is one listing of it stamped now, it reads back as that set without the empty string when no domain has a carriage return, and an empty set writes an empty file |
| DisposableCache.LoadDisposableDomains | disposable_cache.py:38-44 | refreshes exactly when expired, otherwise keeps the file; returns the file's set of stripped, lower-cased, non-empty lines |
| EmailVerifier.QueryDnsMeaning | source_code.py:34-58 | true iff the (name, type) entry is younger than 600 s or the query answered; the entry is fresh afterwards when true and nothing is cached when false; a fresh hit ignores the resolver; other entries are untouched |
| EmailVerifier.QueryDnsFailure | source_code.py:47-58 | without a fresh hit, false exactly on NXDOMAIN, NoAnswer, timeout or any other error |
| EmailVerifier.QueryKeysIndependent | source_code.py:69-81 | the MX and A queries use different cache entries, so either order gives the same results |
| EmailVerifier.HasValidMxMeaning | source_code.py:61-83 | the domain is valid iff its MX entry or query succeeds, or its `domain.` A entry or query does; an A-only domain is valid |
| EmailVerifier.DnsResolver.constructor | source_code.py:18-20 | the resolver starts with an empty cache |
| EmailVerifier.DnsResolver.QueryDns | source_code.py:34-58 | asks `domain` for MX and `domain.` otherwise; the result and the new cache are those of the specification |
| EmailVerifier.DnsResolver.HasValidMxRecord | source_code.py:61-83 | the result is the MX-or-A disjunction on the cache as it was, and both queries' cache updates are applied |
| EmailVerifier.ChooseTransportInOrder | source_code.py:98-108 | the transports are tried in the order 587 with STARTTLS, 25, 465, the next only after an `OSError`; the first that did not raise it is used if it connected, and none otherwise |
| EmailVerifier.RcptVerdict | source_code.py:115-119 | a reply accepts exactly on 250 and defers exactly on 400-499 |
| EmailVerifier.ExchangeHosts | source_code.py:96 | one host per MX record, in answer order; no host ends in a dot, and each exchange is its host followed only by dots |
| EmailVerifier.DomainPartMeaning | source_code.py:89 | the domain part exists iff the address holds an `@`, and it is the text after the only `@` |
| EmailVerifier.VerifyEmailMeaning | source_code.py:87-123 | raises without `@` or on an MX failure other than NoAnswer; accepts or defers iff the first exchanger that decides accepts or defers; rejects on NoAnswer or when none decides; a greylist write happens iff the result is `None` |
| EmailVerifier.VerifyEmail | source_code.py:87-123 | the result is the specification's, and the table gets one upsert with the deferring exchanger and a 600 s delay exactly when the result is `None`, and is unchanged otherwise |
| EmailVerifier.DisposableMeaning | source_code.py:127-129 | the test ignores ASCII case, and a domain with surrounding whitespace is never found in a loaded list |
| EmailVerifier.IsDisposable | source_code.py:127-129 | the result is membership of the lower-cased domain in the set read from the cache file; an unexpired file is kept, and an expired one is replaced by a listing of the refreshed union stamped now |
| EmailVerifier.StopListed | source_code.py:136-141 | where the walk stops at an exchanger that resolved, that exchanger is the first with a listed address |
| EmailVerifier.ListedStop | source_code.py:136-141 | the first exchanger with a listed address, all earlier ones having resolved, is where the walk stops |
| EmailVerifier.StopMeaning | source_code.py:136-141 | the walk stops at a resolved exchanger iff some exchanger is the first with a listed address |
| EmailVerifier.ReputationMeaning | source_code.py:132-144 | `Bad` iff the MX lookup answers and some exchanger resolves to a listed address with every earlier one resolved and unlisted, that is before any exception |
| EmailVerifier.ScanAddresses | source_code.py:139-141 | the inner loop finds a listed address iff one of the addresses is listed |
| EmailVerifier.CheckMxReputation | source_code.py:132-144 | the nested walk returns the specified reputation |
| Verdict.LabelEmailMeaning | main.py:29-38 | failed syntax gives `Invalid` with no other check; no MX or A gives `Invalid`; `False` or `None` from the probe gives `Unknown`; an accepted address is `Risky` iff disposable, else `Valid`; exceptions propagate; the checks made are a prefix of the four |
| Verdict.StatusMeaning | main.py:162-175 | `Valid` iff syntax, MX, SMTP accepted and not disposable; `Greylisted` iff the probe answered `None`; `Invalid` otherwise |
| Verdict.LabelAgreesWithStatus | main.py:162-175 | for the same checks, label `Valid` iff status `Valid`, status `Greylisted` goes with label `Unknown`, and label `Risky` goes with status `Invalid` |

## Left out

- Network I/O is not modelled: dnspython resolution, the smtplib and aiosmtplib sessions (connect, STARTTLS, SSL, EHLO/HELO, MAIL, RCPT, QUIT) and `requests.get`. Each is an input function: a DNS response per name, a connection outcome per host and transport, a session outcome, and an HTTP reply.
- Timeouts are not modelled; a timeout is one of the responses a lookup can give.
- The two threads and queues of `has_valid_mx_record` are modelled as the two queries run one after the other. This is sound because they touch different cache entries.
- The retry worker's `while True` loop with `asyncio.sleep(120)` is not modelled, nor its start-up on a thread or event loop. One pass is modelled.
- A pass reads the clock once: `fetch_due` and every upsert of the pass use the same `now`.
- SQLite connections, transactions and the table creation are not modelled. A database error is not modelled either; in `verify_email` it would be caught and the loop would move on.
- The cache file's I/O is not modelled. The file is its text and an integer modification time, without sub-second precision.
- Writes assume no newline translation (POSIX). Reads use universal newlines.
- Reading the file line by line is modelled as splitting the universal-newline text at `\n`. After `strip` and the emptiness filter, both give the same set.
- `is_valid_email` is not modelled: it wraps the `email_validator` library, so it is an input.
- `lower()` is modelled on ASCII letters only. `strip()` uses Python's full whitespace set.
- TXT data are characters, without UTF-8 decoding.
- EmailVerifier.DnsResolver.QueryDns: source_code.py:37-39 looks up the cache with a `(str, str)` key, but dnspython's cache is keyed by name object, record type and class. As written, the 600 s shortcut is probably never taken and every call asks the resolver. The fresh-hit branch of the model, and the statement of `QueryDnsMeaning` that a fresh hit ignores the resolver, describe the shortcut the code evidently intends.
- EmailVerifier.DnsResolver.QueryDns: the cache is modelled as the map from (name, type) to fetch time that the code reads. dnspython's own cache keys and expiry are not modelled. A successful fresh query is taken to store its answer at `now`, and failed queries are taken not to be cached.
- GreylistDb.GreylistStore.FetchDue: when more rows are due than the limit lets through, the contract does not say which rows are chosen, because the SQL has no `ORDER BY`.
- The Streamlit UI, whois, domain suggestions and bulk CSV/XLSX/TXT ingestion in `main.py` are not modelled. This includes the UI's call of `lookup_dnsbl` on a domain name.
