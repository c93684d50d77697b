# Validator registry and request wrapper, modelled in Dafny

This project models two classes of the PHP package `Http`:

- `Validator`: a fixed registry of three rules (`required`, `min`, `unique`).
  Each rule has a handler, a default error template and a parameter schema.
  The model covers rule lookup, handler lookup with its exceptions, the three
  handlers, and `ruleError`, which renders a rule's error message. The
  message is built by splitting the rule's parameter and substituting the
  `:name:` placeholders and `:field:`.
- `Request`: the request method, the content type, the headers (the server
  variables whose names start with `HTTP`) and the posted data. Callers can
  read the posted data and overwrite single entries.

Modules:

- `Wrappers`: `Option` and `Result`.
- `Strings`: `strtoupper`, `str_starts_with`, `explode` (with and without a
  limit), `implode`, and `preg_replace` with a literal pattern.
- `Values`: the PHP values the handlers see (null, bool, int, string,
  array), `empty()`, `(string)`, `strlen` and the `(int)` cast.
- `Arrays`: PHP string-keyed arrays as ordered sequences of entries.
  A write replaces the entry in place or appends one at the end, so key
  order is exact.
- `Validator`: the rule table as `AvailableRules()`, with `ruleExists`,
  `rules`, `ruleHandler`, the handlers (`Call`) and `ruleError` as functions
  over a table.
- `Requests`: the class `Request`. Its fields are `requestMethod`,
  `contentType`, `requestHeaders` and `postedData`. `Set` (`__set`) updates
  `postedData` in place. The getters are functions over the fields.

Where the code's behaviour is surprising, the model follows the code:

- `ruleError` substitutes placeholders one after another, and the `:field:`
  substitution comes last. A substituted value can therefore be rewritten
  again by a later placeholder. The lemmas about the built-in messages ask
  for parameters without `:`, where this cannot happen.
- For `unique`, the placeholder `:field:` is filled from the rule's
  parameter, so the final `:field:` step finds nothing left and the form
  field's name never appears.
- A handler entry that is set but not callable makes `ruleHandler` return
  null. It does not throw.
- `headers` tests the prefix with the arguments of `str_starts_with`
  reversed (see Findings).

## Model

| member | source | states |
|---|---|---|
| Validator.AvailableRules | src/Validator.php:19-43 | the table holds `required`, `min`, `unique` in that order with distinct names, so `rules()` lists exactly these three in registration order; every rule has a callable handler and a parameter schema |
| Validator.Rules | src/Validator.php:81-84 | `rules()` lists the table's names one per entry, in table order, and a name is listed iff `ruleExists` holds for it |
| Validator.RuleExistsIff | src/Validator.php:51-54 | `ruleExists(r)` holds iff `r` is one of the three rule names |
| Validator.RuleHandler | src/Validator.php:62-74 | each outcome holds iff its case applies: "Validator does not have r" (code 500) iff the rule is unregistered; "Handler for r does not set" (500) iff the rule has no handler; the stored callable iff it is callable; null iff it is set but not callable |
| Validator.RuleHandlerOfAvailable | src/Validator.php:62-74 | on the built-in table each of the three names yields its own handler, and every other name throws "Validator does not have …" with code 500 |
| Validator.RequiredPasses | src/Validator.php:23 | `required` passes iff the value is not one of null, false, 0, "", "0", [] |
| Values.EmptyValues | src/Validator.php:23 | `empty()` holds on exactly those six values |
| Validator.MinPasses | src/Validator.php:28 | `min:n` passes on a string iff its length is at least n; a missing (null) value has length 0; an integer `i` passes iff its decimal form has at least n characters |
| Validator.MinRejectsArrays | src/Validator.php:28 | the `min` handler throws a TypeError exactly when the value is an array |
| Validator.MinThree | src/Validator.php:28 | `min:3` rejects "ab" and accepts "abc" |
| Values.DecimalRoundTrip | src/Validator.php:28 | `(int)` applied to the decimal string of an integer gives that integer back |
| Values.StrLen | src/Validator.php:28 | `strlen` throws exactly on arrays; a string gives its length, null and false give 0, true gives 1, an integer gives the length of its decimal form |
| Validator.UniquePasses | src/Validator.php:33-37 | for `table.column`, the handler builds the query for that table, column and value, and passes iff the query returns no rows |
| Validator.UniqueWithoutColumn | src/Validator.php:34-36 | without a dot the whole parameter is the table and the column in the query is empty |
| Strings.ExplodeLimit | src/Validator.php:34 | `explode` with a limit gives between 1 and `limit` pieces, and gluing them back with the separator gives the input; when `explode` gives at most `limit` pieces the result is `explode`'s, and otherwise there are exactly `limit` pieces, the first `limit - 1` of them `explode`'s |
| Strings.ImplodeExplode | src/Validator.php:104-106 | `implode(sep, explode(sep, s)) == s` |
| Strings.ExplodePartsFree | src/Validator.php:104-106 | no piece of `explode` contains the separator |
| Strings.ExplodeWhole | src/Validator.php:104-106 | `explode` returns the whole string as one piece iff the separator does not occur in it |
| Strings.ReplaceAllIsImplodeExplode | src/Validator.php:115-118 | replacing a literal pattern everywhere is the same as splitting at the pattern and gluing with the replacement |
| Validator.ReplacePlaceholdersFree | src/Validator.php:110-115 | a text without ':' is left unchanged by the placeholder substitutions, whatever the names and values |
| Validator.OverrideVerbatim | src/Validator.php:95-119 | a non-empty override message without ':' is returned unchanged, for every rule and parameter |
| Validator.OverrideActsAsTemplate | src/Validator.php:97-99 | a non-empty override gives the same message as a registry in which that message is the rule's template |
| Validator.EmptyOverrideSelectsTemplate | src/Validator.php:97-99 | an empty override gives the same message as passing the rule's own template |
| Validator.UnregisteredRuleError | src/Validator.php:95-119 | for an unregistered rule only `:field:` is replaced in the override, and without an override the message is empty |
| Validator.RequiredError | src/Validator.php:95-119 | the `required` message is "Field '<field>' is required", for every field and parameter |
| Validator.MinError | src/Validator.php:95-119 | the `min` message is "Value for '<field>' is must be at least <first space-separated piece of the parameter> symbols" |
| Validator.MinErrorPlain | src/Validator.php:104-118 | a `min` parameter without spaces or ':' appears in the message whole |
| Validator.MinErrorThree | src/Validator.php:29 | `ruleError(field, 'min', '3')` is "Value for '<field>' is must be at least 3 symbols" |
| Validator.UniqueError | src/Validator.php:95-119 | the `unique` message names the first dot-separated piece as the table and the second as the field, with "" for a missing piece |
| Validator.UniqueErrorTableColumn | src/Validator.php:103-118 | for `table.column` the message names `table` and `column` |
| Validator.UniqueErrorNoColumn | src/Validator.php:103-118 | for a parameter without a dot the field in the message is '' |
| Validator.UniqueErrorIgnoresField | src/Validator.php:95-119 | for a parameter without ':' the `unique` message is the same for every form field name |
| Validator.UniqueErrorUsers | src/Validator.php:39-40 | `unique:users.email` gives "… table 'users' for field 'email'", and `unique:users` gives "… table 'users' for field ''" |
| Validator.RuleExists | src/Validator.php:51-54 | whether a rule is registered; specified by RuleExistsIff and Rules |
| Validator.RuleError | src/Validator.php:95-119 | the message a rule gives; specified by RequiredError, MinError, UniqueError, OverrideVerbatim, OverrideActsAsTemplate, EmptyOverrideSelectsTemplate and UnregisteredRuleError |
| Validator.ReplacePlaceholders | src/Validator.php:110-115 | the placeholder substitutions applied in order; specified by ReplacePlaceholdersFree, MinError and UniqueError |
| Validator.Call | src/Validator.php:23-37 | runs a handler on a value and a parameter; specified by RequiredPasses, MinPasses, MinRejectsArrays and UniquePasses |
| Validator.UniqueQuery | src/Validator.php:34-36 | the SQL text `unique` sends; specified by UniquePasses and UniqueWithoutColumn |
| Validator.MinAgainstDecimal | src/Validator.php:28 | against the decimal string of n, `min` compares the value's `strlen` with n itself |
| Values.IsEmpty | src/Validator.php:23 | PHP's `empty()`; specified by EmptyValues |
| Values.StrToInt | src/Validator.php:28 | PHP's `(int)` cast on a string; specified by DecimalRoundTrip |
| Values.ToPhpString | src/Validator.php:28 | PHP's string conversion; specified by StrLen and, inside the query, by UniquePasses |
| Strings.Explode | src/Validator.php:104-106 | `explode` without a limit; specified by ImplodeExplode, ExplodePartsFree and ExplodeWhole |
| Strings.ReplaceAll | src/Validator.php:115-118 | literal replacement everywhere; specified by ReplaceAllIsImplodeExplode and ReplaceAllFree |
| Arrays.Put | src/Request.php:72-75 | `$a[k] = v`; specified by LookupPut, KeysPut and PutDistinct |
| Arrays.FilterKeysDistinct | src/Request.php:43-52 | filtering keeps distinct keys distinct |
| Arrays.Keys | src/Validator.php:83 | `array_keys`: one key per entry, each the key of the entry at the same position |
| Arrays.HasKey | src/Request.php:101 | `array_key_exists`; specified by Lookup (a key is found iff it is present), LookupPut and KeysPut |
| Strings.IsPrefix | src/Request.php:48 | `str_starts_with`; specified by PrefixesOfHttp, HeaderKeyExactly and PrefixTrans |
| Requests.IsHeaderName | src/Request.php:47-49 | the filter closure; specified by HeaderEntries, NonHeaderKeyAbsent and IntendedKeyIsHeaderName |
| Validator.Placeholder | src/Validator.php:110-113 | the pattern built for a placeholder name is non-empty and starts with ':', which ReplacePlaceholdersFree relies on |
| Values.DecimalString | src/Validator.php:28 | an integer's decimal string is non-empty; specified by DecimalRoundTrip and StrLen |
| Strings.UpperChar | src/Request.php:141 | `strtoupper` on one character; specified by Upper and UpperIdempotent |
| Arrays.Lookup | src/Request.php:101-102 | a key is found iff it is a key of the array, and the value found is stored under it |
| Arrays.LookupPut | src/Request.php:72-75 | after a write, the written key reads as the new value and every other key reads as before |
| Arrays.KeysPut | src/Request.php:72-75 | a write keeps the key order and appends a new key at the end |
| Arrays.PutDistinct | src/Request.php:72-75 | a write keeps the keys distinct |
| Arrays.FilterKeys | src/Request.php:43-52 | an entry is kept iff it is in the input and its key passes the filter |
| Arrays.LookupFilterKeys | src/Request.php:43-52 | a kept key reads as before and a dropped key is undefined |
| Requests.Index | src/Request.php:40-41 | reading a missing key gives null, and reading a present key gives its value |
| Requests.IsJsonType | src/Request.php:56 | the loose comparison with 'application/json' holds iff the content type is that string or `true` |
| Requests.HeaderEntries | src/Request.php:43-52 | the header table holds exactly the server entries whose key starts with "HTTP", and its keys are distinct when the server's are |
| Requests.LookupHeaderEntries | src/Request.php:43-52 | a header reads as the server variable of the same name when that name starts with "HTTP", and is undefined otherwise |
| Requests.Request.constructor | src/Request.php:38-64 | method and content type come from the server variables (null when missing); headers are the "HTTP…" entries; posted data is the decoded JSON body when the content type compares equal to 'application/json', and the form fields otherwise; the inputs are PHP arrays, so their keys are distinct, and so are the keys of the stored tables |
| Requests.Request.Set | src/Request.php:72-75 | writes only the posted data; the name then reads back as the value, other names read as before, the key order is kept and the keys stay distinct |
| Requests.Request.Get | src/Request.php:83-89 | returns the stored value when the name is a key, and null otherwise |
| Requests.Request.Input | src/Request.php:98-108 | `input('')` is the whole posted data; otherwise the stored value, or null for a missing name |
| Requests.GetEqualsInput | src/Request.php:83-108 | for a non-empty name, `__get` and `input` agree |
| Requests.Request.Method | src/Request.php:115-118 | returns the stored method unchanged |
| Requests.Request.IsMethod | src/Request.php:126-129 | holds iff the stored method is exactly the given string |
| Requests.IsMethodUnique | src/Request.php:126-129 | at most one string is accepted by `isMethod` |
| Requests.IsMethodCaseSensitive | src/Request.php:126-129 | a POST request is accepted by `isMethod('POST')` and not by `isMethod('post')` |
| Requests.HeaderKey | src/Request.php:140-144 | the key looked up is the upper-cased name, with or without the "HTTP_" prefix |
| Requests.HeaderKeyExactly | src/Request.php:140-144 | the prefix is left off exactly when the upper-cased name is "", "H", "HT", "HTT", "HTTP" or "HTTP_" |
| Requests.PrefixesOfHttp | src/Request.php:142 | the strings that "HTTP_" starts with are exactly "", "H", "HT", "HTT", "HTTP" and "HTTP_" |
| Requests.ContentTypeKey | src/Request.php:140-144 | `headers('content_type')` looks up "HTTP_CONTENT_TYPE" |
| Requests.UnprefixedKeys | src/Request.php:140-144 | `headers('http_')` looks up "HTTP_" and `headers('h')` looks up "H" |
| Requests.HeaderKeyAgrees | src/Request.php:140-144 | for a name not involved in the prefix test either way, the written and intended keys are both "HTTP_" + the upper-cased name |
| Requests.HeaderKeyDoublesPrefix | src/Request.php:142 | a name that already starts with "HTTP_" (and is longer) is prefixed a second time, unlike the intended key |
| Requests.HttpHostKey | src/Request.php:142 | `headers('http_host')` looks up "HTTP_HTTP_HOST"; the intended key is "HTTP_HOST" |
| Requests.Request.Headers | src/Request.php:138-152 | `headers('')` is the whole header table; otherwise the value `Lookup` finds under the written key, or null when it is absent; the header table has distinct keys, all starting with "HTTP" |
| Requests.ShortNamesNeverFound | src/Request.php:138-152 | `headers('h')`, `headers('ht')` and `headers('htt')` always give null |
| Requests.NonHeaderKeyAbsent | src/Request.php:43-52 | a key that does not start with "HTTP" is never a stored header |
| Requests.HttpHostMissed | src/Request.php:138-152 | with a `Host` header stored as HTTP_HOST, `headers('http_host')` gives null while the intended lookup finds it |
| Requests.HostFoundEitherWay | src/Request.php:138-152 | with a `Host` header stored as HTTP_HOST, `headers('host')` and the intended lookup both find it |
| Requests.IntendedHeaderKey | src/Request.php:142 | corrected key: it always starts with "HTTP_", and the name is kept as it is iff it already starts with "HTTP_" |
| Requests.IntendedHeaderKeyIdempotent | src/Request.php:142 | the corrected key of a corrected key is the same key |
| Requests.IntendedKeyIsHeaderName | src/Request.php:43-52 | the corrected key always names something the header table can hold |
| Requests.Request.IntendedHeaders | src/Request.php:138-152 | `headers` with the corrected key: the whole table for '', otherwise the value `Lookup` finds under the corrected key, or null |
| Strings.Upper | src/Request.php:141 | `strtoupper` keeps the length and upper-cases each ASCII letter in place |

## Left out

- The database query of the `unique` handler is not modelled. The number of
  rows a query returns is the parameter `rowCount`; the SQL text is modelled.
- The constructor's reads of `$_SERVER`, `$_POST` and `php://input` are left
  out: their results are constructor parameters. `json_decode` is left out
  too: the decoded body is a parameter.
- Requests.Request.constructor: a body that does not decode to an array is
  not modelled (it leaves `posted_data` null or scalar), because the decoded
  body is given as entries.
- src/Response.php is not modelled. It only sends headers and echoes JSON
  (output I/O).
- The validation loop over fields and rules, storing errors in the session,
  and the redirect are not in the modelled classes.
- Strings.ReplaceAll: `preg_replace` is modelled as literal replacement. The
  placeholder names are plain words, so their patterns are literal.
  Backreferences (`$1`, `\1`) in replacement values are not modelled.
- Validator.MinError: stated only for parameters without ':'. A ':' in a
  substituted piece can be rewritten again by a later substitution.
- Validator.UniqueError: stated only for parameters without ':', for the
  same reason.
- Values.StrToInt: the `(int)` cast reads leading whitespace, a sign and a
  digit run. Exponent and float forms, and saturation at PHP_INT_MAX, are
  not modelled.
- Values.StrLen: counts characters, not UTF-8 bytes. Floats are not in the
  value domain.
- Arrays.Entries: keys are strings. PHP's conversion of numeric-string keys
  such as "5" to integers is not modelled.
- Strings.UpperChar: `strtoupper` changes ASCII letters only, as in PHP 8.
- Requests.IsJsonType: the loose comparison covers the modelled value
  domain only; floats are left out.

## Findings

| source | as written | input that shows it | evidently intended | confidence | as-written member | corrected member |
|---|---|---|---|---|---|---|
| src/Request.php:142 | `str_starts_with('HTTP_', $header)` tests whether "HTTP_" starts with the name, not whether the name starts with "HTTP_" | `headers('http_host')` with the server variable HTTP_HOST set: the lookup asks for HTTP_HTTP_HOST and gives null | add "HTTP_" only when the upper-cased name does not already start with it, so `headers('http_host')` and `headers('host')` both find HTTP_HOST | not executed | Requests.HttpHostMissed | Requests.IntendedHeaderKey |
