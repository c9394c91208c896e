# HTTP message signature verification, modelled and proved

The nginx module this project stands beside verifies HTTP Message Signatures (RFC 9421). It
reads the signature headers as Structured Fields (RFC 8941), rebuilds the signature base,
checks it against a profile, remembers nonces so that no message is accepted twice, and
fetches key directories into caches shared by workers. This project states what those parts
do as functions on values, proves properties of these functions, and proves that imperative
code in the form of the source computes them.

| part | specification and theorems | code as it runs |
|---|---|---|
| Structured Fields | `Sfv`, `SfvGrammar`, `SfvCanonical`, `SfvRoundTrip`, `SfvSoundness`, `Base64`, `Base64Meaning` | `SfvReader`, `SfvWriter`, `Base64` |
| Signature base | `SignatureBase`, `WireRequest`, `WireMeaning`, `FormUrl`, `FormMeaning` | `BaseBuilder`, `WireRequest`, `FormUrl` |
| Profile | `Profile`, `ProfileMeaning`, `AgentMeaning`, `HostName` | `ProfileCheck`, `AgentUrl`, `HostName` |
| Red-black tree | `RbShape`, `RbStep`, `RbRemove`, `RbOrder`, `RbFacts`, `KeyOrder` | `RbTree` |
| Nonce zone | `NonceSpec`, `NonceTheory`, `NonceRuns`, `NonceIndex` | `NonceStore` |
| Requests over time | `Replay` | |
| Redis nonces | `RedisNonce` | `RedisClient` |
| Key directory | `DirectoryHost`, `HostMeaning`, `CacheTtl`, `CacheMeaning`, `KeyZone`, `KeyCurrency`, `DirectoryFetch`, `FetchMeaning`, `FetchInvariants`, `FetchExclusion`, `LruList` | `HostNormalizer`, `CacheTtl`, `KeyCache`, `DirectoryRequest`, `ParseCache` |

Main results:

- Reading what the serializer writes gives back the value and consumes exactly its bytes;
  everything that parses is well formed and has a canonical form that is a fixed point; and the
  reader accepts exactly the grammar, every spelling of it and nothing else.
- What verifies is exactly what the profile asks for, said of the message itself; every other
  answer is given exactly when its reason holds.
- Two signature bases are equal exactly when they cover the same components with the same
  values, and a base exists exactly under the limits the module documents. Requests on the
  wire with one base that covers the target URI go to the same scheme, authority, path and query.
- The red-black tree, over linked cells with parent fields, keeps links, order, colours and
  black heights through insertion and deletion, so its depth is logarithmic.
- The nonce zone, over two such trees sharing their nodes, refines set-if-absent with expiry
  plus giving up for lack of room; over whole runs, with internal redirects that evaluate a
  request again, one message is accepted for two requests only when a full zone let one of them
  in unstored, and only replays are refused as such.
- In every interleaving of lookups, rotations, fetches, failures and crashes, the keys a
  request verifies with are the parse of the bytes it holds; each claimed fetch right is given
  back once; and at most one live request holds the right for a host.
- A fetched key set is served by every lookup until it expires and as a hit no longer, whatever
  runs until then; and each answer of a lookup is given exactly when its reason holds.
- The time to live of a key directory is the exact one asked for if and only if no malformed
  directive spoils the one that decides.
- Over a Redis server that may lose commands and replies, one request a key wins, no
  replay is told it was stored while it still verifies, and the pause after k failures is
  min(2^(k-1), max(1, limit)).

Where the environment decides, it is a parameter: the clock, the Ed25519 check and the JWKS
parser (any functions), whether shared memory has room in the key cache, what becomes of a
Redis command. Critical sections under the zone mutex are single atomic steps. Mirrored
left and right branches of the tree code are one branch with the side as a parameter.

Where comments and code disagree, the code is followed:

- src/ngx_auth_httpsig_base.c:430 says duplicate parameters were rejected; the parser folds
  them (src/ngx_auth_httpsig_sfv.c:539-557), which still leaves keys distinct.
- src/ngx_auth_httpsig_cache.h:94-95 says only a hit carries a generation; a stale answer
  during a fetch does too (src/ngx_auth_httpsig_cache.c:327-337), and `KeyZone.LookupCoherent`
  covers both.
- src/ngx_auth_httpsig_nonce_store.c:266-267 says that only live nodes remain when the zone
  gives up; `NonceTheory.GivesUpLeaves` states exactly when that holds.
- src/ngx_auth_httpsig_directory.c:566-620 writes its output before it accepts the token;
  `CacheTtl.TtlExactly` states exactly when the time to live is still the one asked for.

## Model

| member | source | states |
|---|---|---|
| SfvRoundTrip.ItemRoundTrip | src/ngx_auth_httpsig_sfv.c:1105-1113 | for every well-formed item, reading what the writer emits, in front of any text that cannot continue it, gives back that item and leaves exactly that text |
| SfvRoundTrip.InnerListRoundTrip | src/ngx_auth_httpsig_sfv.c:1117-1144 | the same for every well-formed inner list, whatever its items and parameters |
| SfvRoundTrip.MemberRoundTrip | src/ngx_auth_httpsig_sfv.c:652-675 | the same for a dictionary member, which is told to be an item or a list by its first byte |
| SfvRoundTrip.MemberInjective | src/ngx_auth_httpsig_sfv.c:1117-1144 | equal serializations in front of admissible text mean equal members and equal text |
| SfvRoundTrip.BareRoundTrip | src/ngx_auth_httpsig_sfv.c:1033-1059 | round trip of every bare item: integers and decimals of fifteen digits, printable strings, tokens, any bytes, booleans |
| SfvRoundTrip.DecimalRoundTrip | src/ngx_auth_httpsig_sfv.c:914-965 | a decimal written with its trailing zeros dropped reads back as the same thousandths, and is not mistaken for an integer |
| SfvRoundTrip.IntegerRoundTrip | src/ngx_auth_httpsig_sfv.c:883-910 | an integer of at most fifteen digits and either sign reads back as itself |
| SfvRoundTrip.TextRoundTrip | src/ngx_auth_httpsig_sfv.c:969-991 | a printable text, escaped and quoted, reads back unescaped and consumes exactly its closing quote |
| SfvRoundTrip.ContentRoundTrip | src/ngx_auth_httpsig_sfv.c:995-1018 | any byte string, base64-encoded between colons, reads back as itself |
| SfvRoundTrip.ParamsRoundTrip | src/ngx_auth_httpsig_sfv.c:1063-1101 | distinct valid parameters read back in order, a true Boolean from its bare key |
| SfvRoundTrip.KeyRoundTrip | src/ngx_auth_httpsig_sfv.c:176-199 | a valid key is read whole and nothing after it |
| SfvRoundTrip.TokenRoundTrip | src/ngx_auth_httpsig_sfv.c:372-395 | a valid token is read whole and nothing after it |
| SfvSoundness.DictionarySound | src/ngx_auth_httpsig_sfv.c:679-769 | every dictionary that parses is well formed: valid keys, each once in order of first occurrence with the last value, at most 64; the duplicate flag is set exactly when a key recurred |
| SfvSoundness.FoldMerges | src/ngx_auth_httpsig_sfv.c:527-576 | folding repeated keys keeps first-occurrence order and last values, stated without the fold |
| SfvSoundness.MemberSound | src/ngx_auth_httpsig_sfv.c:652-675 | every member that parses satisfies the limits the serializer relies on |
| SfvSoundness.BareSound | src/ngx_auth_httpsig_sfv.c:473-508 | every bare item that parses is well formed: printable text, valid token, magnitude of at most fifteen digits |
| SfvSoundness.MagnitudeSound | src/ngx_auth_httpsig_sfv.c:399-469 | a number that parses has at most fifteen digits, or twelve before the point and three after |
| SfvSoundness.ParamsSound | src/ngx_auth_httpsig_sfv.c:512-576 | parameters that parse are distinct, valid and at most sixteen |
| SfvSoundness.Canonical | src/ngx_auth_httpsig_sfv.c:1319-1335 | what parses can be serialized, and serializing and reading again gives the same value: the canonical form is a fixed point |
| SfvReader.Reader.TakeKey | src/ngx_auth_httpsig_sfv.c:176-199 | the cursor reader takes exactly the key the grammar does, and declines exactly where it does |
| SfvReader.Reader.ScanText | src/ngx_auth_httpsig_sfv.c:216-248 | the first pass finds the closing quote and counts the escapes, or declines exactly where the grammar does |
| SfvReader.Reader.TakeText | src/ngx_auth_httpsig_sfv.c:203-280 | a string, in place or copied, is the text the grammar reads |
| SfvReader.Reader.CopyUnescaped | src/ngx_auth_httpsig_sfv.c:258-279 | the second pass fills a buffer sized from the count, to its last byte, with the unescaped text |
| SfvReader.Reader.TakeContent | src/ngx_auth_httpsig_sfv.c:284-346 | a byte sequence is accepted exactly when it is closed, padded only at its end and decodable, with the bytes it encodes |
| SfvReader.Reader.CheckPadding | src/ngx_auth_httpsig_sfv.c:310-334 | padding is accepted at the end only |
| SfvReader.Reader.TakeToken | src/ngx_auth_httpsig_sfv.c:372-395 | the cursor reader takes exactly the token the grammar does |
| SfvReader.Reader.TakeDigits | src/ngx_auth_httpsig_sfv.c:417-428 | a run of digits is accumulated in 64 bits without overflow, and refused past its limit |
| SfvReader.Reader.TakeMagnitude | src/ngx_auth_httpsig_sfv.c:399-469 | an integer or decimal is read as the grammar reads it, every step inside 64 bits |
| SfvReader.Reader.TakeFraction | src/ngx_auth_httpsig_sfv.c:441-463 | one to three fractional digits, scaled to thousandths |
| SfvReader.Reader.TakeBare | src/ngx_auth_httpsig_sfv.c:473-508 | the kind of a bare item is told from its first byte, as the grammar does |
| SfvReader.Reader.TakeParams | src/ngx_auth_httpsig_sfv.c:512-576 | parameters are folded by key as they are read, and refused past sixteen distinct ones |
| SfvReader.Reader.TakeItem | src/ngx_auth_httpsig_sfv.c:580-591 | an item is read as the grammar reads it |
| SfvReader.Reader.TakeItems | src/ngx_auth_httpsig_sfv.c:595-640 | the items of a list up to its closing parenthesis, separated by spaces, at most 64 |
| SfvReader.Reader.TakeInnerList | src/ngx_auth_httpsig_sfv.c:595-648 | an inner list with its parameters is read as the grammar reads it, the nesting depth restored |
| SfvReader.Reader.TakeMember | src/ngx_auth_httpsig_sfv.c:652-675 | a member is read as the grammar reads it |
| SfvReader.Reader.TakeDictionary | src/ngx_auth_httpsig_sfv.c:679-769 | the loop over entries yields the merged dictionary and the duplicate flag, or declines exactly where the grammar does |
| SfvReader.Reader.Find | src/ngx_auth_httpsig_sfv.c:1378-1396 | the index of the first pair with a key, or the length |
| SfvReader.ParseDictionaryText | src/ngx_auth_httpsig_sfv.c:1197-1227 | a dictionary parse accepts exactly the texts of the grammar within 8192 bytes, consumed whole |
| SfvReader.ParseItemText | src/ngx_auth_httpsig_sfv.c:1265-1295 | an item parse accepts exactly the texts of the grammar within 8192 bytes, consumed whole |
| SfvWriter.Writer.AppendInteger | src/ngx_auth_httpsig_sfv.c:883-910 | appends exactly the decimal digits of a 64-bit value, produced last to first into scratch space without overflow |
| SfvWriter.Writer.AppendDecimal | src/ngx_auth_httpsig_sfv.c:914-965 | appends the whole part and the fraction with its trailing zeros dropped but one digit kept |
| SfvWriter.Writer.AppendText | src/ngx_auth_httpsig_sfv.c:969-991 | appends a text in quotes with its quotes and backslashes escaped |
| SfvWriter.Writer.AppendBytes | src/ngx_auth_httpsig_sfv.c:995-1018 | appends the base64 of a byte string between colons |
| SfvWriter.Writer.AppendParams | src/ngx_auth_httpsig_sfv.c:1063-1101 | appends every parameter, a true Boolean as its key alone |
| SfvWriter.Writer.AppendInnerList | src/ngx_auth_httpsig_sfv.c:1117-1144 | appends the items separated by single spaces, then the parameters of the list |
| SfvWriter.SerializeItem | src/ngx_auth_httpsig_sfv.c:1299-1315 | serialization of a well-formed item cannot fail and is the canonical text |
| SfvWriter.SerializeInnerList | src/ngx_auth_httpsig_sfv.c:1319-1335 | serialization of a well-formed inner list cannot fail and is the canonical text |
| SfvGrammar.ClassExactly | src/ngx_auth_httpsig_sfv.c:108-172 | the characters of keys, tokens, numbers and strings, and what each may begin with, written out |
| SfvGrammar.KeyExactly | src/ngx_auth_httpsig_sfv.c:176-199 | a key is read exactly from a valid key followed by no further key character |
| SfvGrammar.TokenExactly | src/ngx_auth_httpsig_sfv.c:372-395 | a token is read exactly from a valid token followed by no further token character |
| SfvGrammar.TextExactly | src/ngx_auth_httpsig_sfv.c:203-280 | a string is read exactly from its text escaped and closed by a quote: it has no other spelling |
| SfvGrammar.ContentExactly | src/ngx_auth_httpsig_sfv.c:284-346 | a byte sequence is read exactly from well-padded base64 without a colon, closed by one |
| SfvGrammar.NumberAccepted | src/ngx_auth_httpsig_sfv.c:399-469 | every spelling of a number is read: leading zeros, a negative zero, one to three fractional digits |
| SfvGrammar.NumberRead | src/ngx_auth_httpsig_sfv.c:399-469 | and nothing else is: the sign, the digits and their limits are those of the grammar |
| SfvGrammar.BareExactly | src/ngx_auth_httpsig_sfv.c:473-508 | a bare item is read exactly from its text, whatever its kind |
| SfvGrammar.ParamsExactly | src/ngx_auth_httpsig_sfv.c:512-576 | parameters are read exactly from semicolons, spaces, keys and values; repeats are merged, and at most sixteen are left |
| SfvGrammar.ItemExactly | src/ngx_auth_httpsig_sfv.c:580-591 | an item is read exactly from the text of a bare item and of parameters |
| SfvGrammar.ItemsExactly | src/ngx_auth_httpsig_sfv.c:595-640 | the items of a list are read exactly when spaces part them, up to the closing parenthesis |
| SfvGrammar.InnerListExactly | src/ngx_auth_httpsig_sfv.c:595-648 | an inner list is read exactly from at most 64 items and its parameters |
| SfvGrammar.MemberExactly | src/ngx_auth_httpsig_sfv.c:652-675 | a member is a list exactly when it opens a parenthesis, and read as one |
| SfvGrammar.EntriesExactly | src/ngx_auth_httpsig_sfv.c:679-769 | entries are read exactly when a comma parts them, with blanks around it and behind the last, and no comma behind the last |
| SfvGrammar.DictionaryExactly | src/ngx_auth_httpsig_sfv.c:1197-1227 | a dictionary is parsed exactly from its spellings within 8192 bytes and 64 labels, merged, with repeats noted |
| SfvGrammar.WholeItemExactly | src/ngx_auth_httpsig_sfv.c:1265-1295 | an item is parsed exactly from its spellings within 8192 bytes, with spaces around it |
| SfvGrammar.MergedOnce | src/ngx_auth_httpsig_sfv.c:527-576 | merging repeated keys has one result |
| SfvCanonical.IntegerWritten | src/ngx_auth_httpsig_sfv.c:883-910 | an integer is written as a sign if it is negative and its digits, with no zero in front |
| SfvCanonical.DecimalWritten | src/ngx_auth_httpsig_sfv.c:914-965 | a decimal is written with no zero in front and none behind, but one digit on each side of the point |
| SfvCanonical.BareWritten | src/ngx_auth_httpsig_sfv.c:969-1059 | every other bare item is written between its marks |
| SfvCanonical.ParamsWritten | src/ngx_auth_httpsig_sfv.c:1063-1101 | parameters are written one behind the other, each a semicolon, its key, and its value unless it is true |
| SfvCanonical.ItemWritten | src/ngx_auth_httpsig_sfv.c:1105-1113 | an item is written as its bare item and its parameters |
| SfvCanonical.ItemsWritten | src/ngx_auth_httpsig_sfv.c:1117-1144 | items are written with one space between them |
| SfvCanonical.InnerListWritten | src/ngx_auth_httpsig_sfv.c:1117-1144 | a list is written as its items in parentheses and its parameters |
| Base64.RoundTrip | tests/unit/ngx_compat/ngx_stub.c:443-517 | decoding an encoding gives back the bytes, for every byte string; the encoding holds no colon, is printable and passes the padding check |
| Base64.DrainLength | tests/unit/ngx_compat/ngx_stub.c:467-517 | what is decoded never exceeds the length computed for the buffer |
| Base64.EncodeBytes | tests/unit/ngx_compat/ngx_stub.c:443-465 | the encoder fills its buffer exactly, with the encoding |
| Base64.DecodeBytes | tests/unit/ngx_compat/ngx_stub.c:467-517 | the decoder yields what the encoding stands for or refuses it, and stays inside its buffer |
| Base64Meaning.SextetExactly | tests/unit/ngx_compat/ngx_stub.c:443-517 | the letters of the alphabet stand for their places, and nothing else is a letter |
| Base64Meaning.DecodesExactly | tests/unit/ngx_compat/ngx_stub.c:467-517 | a text decodes exactly when all before its padding are letters, not one more than a multiple of four; each byte is eight of their bits |
| Base64Meaning.EncodesExactly | tests/unit/ngx_compat/ngx_stub.c:443-465 | an encoding is whole groups of four, padded, with no stray bits in its last letter |
| FormUrl.RoundTrip | src/ngx_auth_httpsig_base.c:290-397 | decoding an encoding gives back the bytes, for every byte string |
| FormUrl.EncodedSizeExact | src/ngx_auth_httpsig_base.c:350-372 | the size computed in the first pass is the number of bytes the second writes |
| FormUrl.EncodeIsQuiet | src/ngx_auth_httpsig_base.c:336-341 | an encoding holds unreserved characters, plus and percent only |
| FormUrl.UniqueMatchExact | src/ngx_auth_httpsig_base.c:411-504 | a parameter is found exactly when one and only one segment's decoded key is the name |
| FormUrl.DecodeText | src/ngx_auth_httpsig_base.c:290-332 | the decoder yields the decoded bytes, malformed escapes kept literally |
| FormUrl.EncodeText | src/ngx_auth_httpsig_base.c:350-397 | the two-pass encoder fills its buffer exactly, with the encoding |
| FormUrl.KeyEquals | src/ngx_auth_httpsig_base.c:247-281 | comparing on the fly agrees with decoding first: equal exactly when the decoded key is the target |
| FormUrl.FindQueryParam | src/ngx_auth_httpsig_base.c:411-504 | the loop over segments returns the re-encoded value of the only match, or nothing |
| FormMeaning.DecodesEscape | src/ngx_auth_httpsig_base.c:226-332 | a percent sign and two hexadecimal digits, each in either case, decode to their byte |
| FormMeaning.DecodesPlus | src/ngx_auth_httpsig_base.c:290-332 | a plus sign decodes to a space |
| FormMeaning.DecodesOther | src/ngx_auth_httpsig_base.c:290-332 | everything else decodes to itself, a percent sign without two digits behind it included |
| FormMeaning.EncodesByte | src/ngx_auth_httpsig_base.c:336-397 | a space is encoded as a plus sign, a plain character as itself, any other byte with two upper-case digits |
| FormMeaning.SplitsAtAmpersand | src/ngx_auth_httpsig_base.c:411-504 | an ampersand ends a segment, and a last one ends none further |
| FormMeaning.PartsAtEquals | src/ngx_auth_httpsig_base.c:411-504 | the first equals sign parts name and value; without one there is no value |
| FormMeaning.QueryParamExactly | src/ngx_auth_httpsig_base.c:411-504 | a parameter has a value exactly when one segment alone has its decoded name: that segment's value, encoded anew |
| SignatureBase.BuildExact | src/ngx_auth_httpsig_base.c:871-965 | a base exists exactly when there are at most 64 components, each has a value, no serialized label repeats and the text has at most 16384 bytes; it is then one line a component and the closing line |
| SignatureBase.BaseIsUnambiguous | src/ngx_auth_httpsig_base.c:871-965 | over requests without line feeds, two bases are equal exactly when the same components are covered with the same parameters and each has the same value |
| SignatureBase.ComponentQuiet | src/ngx_auth_httpsig_base.c:708-810 | a component value of a request without line feeds holds none |
| SignatureBase.LinesDetermineValues | src/ngx_auth_httpsig_base.c:871-965 | equal lines for the same labels mean equal values |
| BaseBuilder.FieldText | src/ngx_auth_httpsig_base.c:814-867 | the two passes over the headers yield the values of a field joined with a comma and a space, or report it missing |
| BaseBuilder.TargetUriText | src/ngx_auth_httpsig_base.c:162-202 | the target URI fills its buffer exactly, with the empty path as a slash |
| BaseBuilder.DerivedText | src/ngx_auth_httpsig_base.c:708-810 | a derived component has the value the standard gives it, or the reason it is refused |
| BaseBuilder.AgentMemberText | src/ngx_auth_httpsig_base.c:575-618 | one member of Signature-Agent in its canonical form |
| BaseBuilder.ComponentText | src/ngx_auth_httpsig_base.c:622-663 | a field component is refused for upper-case names and unsupported parameters, else has the value of its field |
| BaseBuilder.AddComponent | src/ngx_auth_httpsig_base.c:899-943 | one turn appends one line, or refuses for a repeated label, a missing value or lack of room |
| BaseBuilder.BuildBase | src/ngx_auth_httpsig_base.c:871-965 | the loop over components builds exactly the specified base, or refuses with the first reason |
| WireMeaning.AlwaysThere | src/ngx_auth_httpsig_base.c:708-810 | from the request on the wire: @method is its method, @scheme its scheme, @request-target its target, @authority its normalized host |
| WireMeaning.AuthorityExactly | src/ngx_http_auth_httpsig_module.c:1765-1790 | the authority is the lower-case host, without :80 behind http or :443 behind https unless nothing else is left |
| WireMeaning.TargetParts | src/ngx_http_auth_httpsig_module.c:1805-1853 | @path and @query of a target in either form, said by how the target is put together |
| WireMeaning.SlashHasNone | src/ngx_http_auth_httpsig_module.c:1815-1838 | a target that begins with a slash has no scheme, so all of it is path and query |
| WireMeaning.OnlyStrings | src/ngx_auth_httpsig_base.c:899-903 | only strings name components |
| WireMeaning.UriOfParts | src/ngx_auth_httpsig_base.c:162-202 | @target-uri is @scheme, ://, @authority, @path and, when there is one, @query |
| WireMeaning.NoTarget | src/ngx_auth_httpsig_base.c:708-810 | without a target nothing made of it has a value |
| WireMeaning.UnknownRefused | src/ngx_auth_httpsig_base.c:708-810 | names the module does not know have no value |
| WireMeaning.ParamsRefused | src/ngx_auth_httpsig_base.c:708-810 | a derived component with parameters has no value, but @query-param |
| WireMeaning.SameBaseSameParts | src/ngx_auth_httpsig_base.c:871-965 | two requests on the wire with one base agree in every covered part: method, scheme, request target, authority, path, query |
| WireMeaning.JoinExactly | src/ngx_auth_httpsig_base.c:814-867 | the lines of a field are one value with a comma and a space between them |
| WireMeaning.FieldOnWire | src/ngx_auth_httpsig_base.c:622-663 | a plain field has its trimmed lines, joined; capitals in its name and its absence are refused |
| WireMeaning.AgentMemberOnWire | src/ngx_auth_httpsig_base.c:575-618 | signature-agent with a key yields that member in canonical form, when the joined lines are a dictionary that has it |
| WireMeaning.FieldParamsRefused | src/ngx_auth_httpsig_base.c:622-663 | any other parameter of a field leaves it without a value |
| WireMeaning.QueryParamOnWire | src/ngx_auth_httpsig_base.c:708-810 | @query-param is asked for by name and nothing else, on requests with a target |
| WireRequest.SameBaseSameTarget | src/ngx_auth_httpsig_base.c:871-965 | two requests on the wire with one signature base that covers the target URI have the same scheme, authority, path and query, whatever else differs |
| WireRequest.TargetUriDetermines | src/ngx_auth_httpsig_base.c:162-202 | target URIs are equal exactly when scheme, authority, effective path and query are, when the scheme holds no colon and the authority no slash |
| WireRequest.FormsAgree | src/ngx_http_auth_httpsig_module.c:1805-1853 | an absolute target and its origin form give the same path, query and target URI, an empty path and a missing query included |
| WireRequest.DefaultPortIrrelevant | src/ngx_http_auth_httpsig_module.c:1765-1790 | a port the scheme implies makes no difference to the authority |
| WireRequest.TrimExact | src/ngx_http_auth_httpsig_module.c:1894-1908 | a field value loses all blanks at both ends and nothing else |
| WireRequest.CollectedAreLines | src/ngx_http_auth_httpsig_module.c:1648-1711 | collecting a field from the raw head gives the lines of the built request, whatever the case of the name |
| WireRequest.CollectHeader | src/ngx_http_auth_httpsig_module.c:1648-1711 | the loop over the raw head collects every value of a field, trimmed, in receipt order |
| WireRequest.BuiltOneLine | src/ngx_http_auth_httpsig_module.c:1723-1912 | a request head without line feeds yields a request without them, which is what the signature base asks for |
| WireRequest.SkipOrigin | src/ngx_http_auth_httpsig_module.c:1815-1838 | the scan skips scheme and authority of an absolute target and nothing else |
| WireRequest.StripDefaultPort | src/ngx_http_auth_httpsig_module.c:1765-1790 | the loop over the default ports yields the specified authority |
| WireRequest.BuildRequest | src/ngx_http_auth_httpsig_module.c:1723-1912 | the request built from the head, target split, port stripped and fields normalized, is the specified one |
| RbTree.Tree.Insert | tests/unit/ngx_compat/ngx_rbtree.c:24-93 | inserting a node keeps every link, the colour and black-height rules and the order; the in-order sequence gains that node after every node whose key is not greater |
| RbTree.Tree.Delete | tests/unit/ngx_compat/ngx_rbtree.c:156-315 | deleting a node keeps every link, the colour and black-height rules and the order; the in-order sequence loses exactly that node |
| RbTree.Tree.Find | src/ngx_auth_httpsig_nonce_store.c:136-165 | a search returns a node exactly when one is stored under the key |
| RbTree.Tree.First | src/ngx_auth_httpsig_nonce_store.c:188-189 | the leftmost node is the first in order |
| RbTree.Tree.FirstOf | src/ngx_auth_httpsig_cache.c:168-189 | the recursive walk returns the first node in order with a property, or none when there is none |
| RbTree.Tree.Descend | src/ngx_auth_httpsig_cache.c:95-129 | the descent ends at the empty place where everything before is not above the key and everything after is |
| RbTree.Tree.InsertFixup | tests/unit/ngx_compat/ngx_rbtree.c:48-92 | recolouring and rotating a red leaf restores the colour and height rules without changing the order |
| RbTree.Tree.DeleteFixup | tests/unit/ngx_compat/ngx_rbtree.c:252-314 | moving a missing black up restores the colour and height rules without changing the order |
| RbTree.Tree.DeleteTwo | tests/unit/ngx_compat/ngx_rbtree.c:175-238 | a node with two children is replaced by its successor, which keeps every link consistent |
| RbTree.Tree.Transplant | tests/unit/ngx_compat/ngx_rbtree.c:215-237 | one node takes the links and colour of another, and every neighbour points at it |
| RbTree.Tree.Rotate | tests/unit/ngx_compat/ngx_rbtree.c:318-375 | a rotation, at the root or below it, realizes the rotated shape and keeps the order |
| RbTree.Tree.Straighten | tests/unit/ngx_compat/ngx_rbtree.c:60-63 | an inner red child is turned outward |
| RbTree.Tree.Recolor | tests/unit/ngx_compat/ngx_rbtree.c:53-57 | a red uncle: the family is repainted in place |
| RbTree.Tree.TurnSibling | tests/unit/ngx_compat/ngx_rbtree.c:269-274 | a black sibling whose far child is black turns until its far child is red |
| RbTree.Tree.RaiseSibling | tests/unit/ngx_compat/ngx_rbtree.c:276-280 | a black sibling with a red far child takes the parent's place and pays the debt |
| RbTree.Tree.LowerSibling | tests/unit/ngx_compat/ngx_rbtree.c:257-262 | a red sibling is rotated above the parent and the new sibling is black |
| RbShape.RotateKeepsOrder | tests/unit/ngx_compat/ngx_rbtree.c:318-375 | a rotation does not change the in-order sequence |
| RbShape.RotateLinked | tests/unit/ngx_compat/ngx_rbtree.c:318-375 | the cells written by a rotation realize the rotated shape wherever it hangs |
| RbShape.Shallow | tests/unit/ngx_compat/ngx_rbtree.c:12-15 | a red-black tree of n nodes has at most twice the logarithm of n + 1 levels |
| RbShape.HeightBound | tests/unit/ngx_compat/ngx_rbtree.c:12-15 | height is at most twice the black height, and the size at least exponential in it |
| RbRemove.DebtPaid | tests/unit/ngx_compat/ngx_rbtree.c:276-280 | rotating the sibling up restores the heights and the colours |
| RbRemove.DebtMovesUp | tests/unit/ngx_compat/ngx_rbtree.c:264-266 | painting the sibling red leaves the parent's subtree one black short |
| RbStep.RecolorRestores | tests/unit/ngx_compat/ngx_rbtree.c:53-57 | repainting moves the red excess two levels up |
| RbOrder.InsertSorted | tests/unit/ngx_compat/ngx_rbtree.c:96-118 | inserting after every key that is not greater keeps the sequence sorted |
| KeyOrder.ByHashOrder | src/ngx_auth_httpsig_nonce_store.c:98-132 | by hash and then bytes is a strict total order: keys that neither precede the other are equal |
| KeyOrder.Memn2CmpEqual | tests/unit/ngx_compat/ngx_stub.c:770-792 | the comparison is zero exactly for equal strings, and antisymmetric |
| KeyOrder.TimerOrder | tests/unit/ngx_compat/ngx_rbtree.c:122-153 | for times less than the whole range apart, comparing expiries by their wrapped difference is comparing them exactly within half the range |
| NonceStore.Store.ShmCheck | src/ngx_auth_httpsig_nonce_store.c:207-306 | a check on the two trees, the slab and its budget does exactly what the specification does to the records in expiry order |
| NonceStore.Store.Reclaim | src/ngx_auth_httpsig_nonce_store.c:175-203 | frees up to two expired nodes from the front of the expiry tree, out of both trees |
| NonceStore.Store.Renew | src/ngx_auth_httpsig_nonce_store.c:237-249 | an expired node is moved to its new expiry in place |
| NonceStore.Store.Add | src/ngx_auth_httpsig_nonce_store.c:289-301 | a new node is filed under both trees and charged to the budget |
| NonceStore.Store.Free | src/ngx_auth_httpsig_nonce_store.c:197-199 | a node leaves both trees and its memory is given back |
| NonceStore.Store.Find | src/ngx_auth_httpsig_nonce_store.c:136-165 | the node that carries a key, exactly when there is one |
| NonceStore.Store.StateGood | src/ngx_auth_httpsig_nonce_store.c:98-203 | both trees hold the same nodes under the keys of their records, keys are unique, records are in expiry order, and use is the sum of the sizes within the budget |
| NonceTheory.RefinesSetIfAbsent | src/ngx_auth_httpsig_nonce_store.c:207-306 | on what is live, a check that stores adds exactly its key with its expiry, every other check changes nothing; replays are reported exactly for live keys |
| NonceTheory.CheckKeepsGood | src/ngx_auth_httpsig_nonce_store.c:207-306 | every check keeps expiry order, one record a key, and the budget |
| NonceTheory.ReclaimedDrops | src/ngx_auth_httpsig_nonce_store.c:175-203 | reclaim drops a prefix in expiry order: expired records only, as many as there are up to the batch |
| NonceTheory.InsertShrinksBacklog | src/ngx_auth_httpsig_nonce_store.c:251-267 | storing a new key removes exactly two expired records, or four when two were not enough, or all there are |
| NonceTheory.GivesUpExactly | src/ngx_auth_httpsig_nonce_store.c:251-287 | the zone gives up exactly when the key is new and dropping the first four expired records would not make room |
| NonceTheory.GivesUpLeaves | src/ngx_auth_httpsig_nonce_store.c:265-287 | giving up leaves the expired records beyond the first four, so none exactly when there were at most four |
| NonceTheory.GivingUpNoted | src/ngx_auth_httpsig_nonce_store.c:268-280 | giving up is noted once in sixty seconds, and nothing else is |
| NonceTheory.GivesUpWithBacklog | src/ngx_auth_httpsig_nonce_store.c:265-287 | the claim that only live nodes remain fails: a zone of five expired records gives up on a key that would fit an empty one, and keeps one of them |
| NonceRuns.NoReplay | src/ngx_auth_httpsig_nonce_store.c:207-306 | over every run, once a key is stored every later check up to and at its expiry is refused, whatever ran in between |
| NonceRuns.Remembered | src/ngx_auth_httpsig_nonce_store.c:207-306 | a stored record keeps its expiry through every later call made no later than it |
| NonceRuns.RunKeepsGood | src/ngx_auth_httpsig_nonce_store.c:207-306 | the invariant holds all along every run, whatever the clock does |
| NonceRuns.KeysDiffer | src/ngx_auth_httpsig_nonce_store.c:310-339 | store keys are equal exactly for equal host, key id and nonce, given host and key id without a NUL |
| NonceRuns.KeysCollide | src/ngx_auth_httpsig_nonce_store.c:310-339 | without that, two different signatures share a key |
| NonceRuns.TtlCoversWindow | src/ngx_auth_httpsig_nonce_store.c:343-359 | a record lives at least to the last instant its signature is accepted, and one second longer only at that instant |
| Profile.PrecheckAgrees | src/ngx_auth_httpsig_profile.c:442-533 | on requests that carry Signature-Agent, what verifies was selected by the pre-check under the same label and key id, and what is selected can fail only for its window, signature, base or key |
| Profile.PrecheckAgreesOnWire | src/ngx_http_auth_httpsig_module.c:2060-2107 | the same from the request on the wire, where the pre-check reads the raw head and verification the built request |
| Profile.VerifiedExactly | src/ngx_auth_httpsig_profile.c:152-355 | verification succeeds exactly on a signature that is the first tagged one, well typed, matching, inside its window, present as bytes, with a base, and verified by the key |
| Profile.SelectedValid | src/ngx_auth_httpsig_profile.c:152-279 | a signature that is selected is a well-formed list, so its times have fifteen digits at most and its key id and nonce are printable |
| Profile.SelectEntryIn | src/ngx_auth_httpsig_profile.c:364-389 | the selected entry is the first with the tag |
| Profile.JoinedIsValue | src/ngx_auth_httpsig_profile.c:399-438 | the lines the pre-check joins are the bytes verification parses |
| ProfileCheck.PickEntry | src/ngx_auth_httpsig_profile.c:364-389 | the loop returns the first tagged entry |
| ProfileCheck.ReadFields | src/ngx_auth_httpsig_profile.c:624-661 | every known parameter is read, and a wrong type declines the signature |
| ProfileCheck.CoveredBits | src/ngx_auth_httpsig_profile.c:668-696 | the loop collects exactly the components of the table that are covered |
| ProfileCheck.CheckWindow | src/ngx_auth_httpsig_profile.c:284-315 | the time window in 64-bit arithmetic, without overflow for fifteen-digit times |
| ProfileCheck.CollectLines | src/ngx_auth_httpsig_profile.c:542-575 | every value of a field in receipt order |
| ProfileCheck.JoinLines | src/ngx_auth_httpsig_profile.c:399-438 | the measured and then copied text is the lines joined with a comma and a space |
| ProfileCheck.ChooseLabel | src/ngx_auth_httpsig_profile.c:442-533 | the pre-check as it runs is the specified one |
| ProfileCheck.VerifyRequest | src/ngx_auth_httpsig_profile.c:152-355 | the fifteen steps in their order give the specified result |
| ProfileMeaning.CoveredExactly | src/ngx_auth_httpsig_profile.c:668-696 | a component is covered exactly when an item of the list is the string that names it |
| ProfileMeaning.FieldsExactly | src/ngx_auth_httpsig_profile.c:624-661 | parameters are extracted exactly when every known one has its type, each with its value |
| ProfileMeaning.MatchesExactly | src/ngx_auth_httpsig_profile.c:109-148 | a signature matches exactly when the required parameters are there, an algorithm is the profile's up to case, one of the components asked for is named, and all of the others are |
| ProfileMeaning.MismatchExactly | src/ngx_auth_httpsig_profile.c:152-282 | a mismatch is answered exactly when the signature that is tried asks for too little, the agent rule included |
| ProfileMeaning.ExpiredExactly | src/ngx_auth_httpsig_profile.c:284-315 | out of time is answered exactly when that signature fits and is made in the future, has run out or lives too long |
| ProfileMeaning.NotSignedExactly | src/ngx_auth_httpsig_profile.c:183-237 | not signed is answered exactly without Signature-Input, or without a tagged label in one that can be read |
| ProfileMeaning.VerifiedMeans | src/ngx_auth_httpsig_profile.c:152-355 | a signature verifies exactly when the first tagged list is well typed, fits, covers the agent, is in time, has its bytes and a base, and the key agrees; the key's refusal is answered exactly when all else holds |
| ProfileMeaning.WebBotAuthMeans | src/ngx_auth_httpsig_profile.c:19-36 | under the built-in profile what verifies names @target-uri or @authority, is tagged, timed within the skew and the longest lifetime, has a key id, and names signature-agent when the request has one |
| ProfileMeaning.SelectedExactly | src/ngx_auth_httpsig_profile.c:442-533 | the pre-check selects exactly the first tagged label without repeats whose list is well typed, fits and names signature-agent, with its key id |
| ProfileMeaning.TriedBounds | src/ngx_auth_httpsig_profile.c:624-661 | what is tried has times of fifteen digits at most and printable strings |
| AgentMeaning.UrlExactly | src/ngx_auth_httpsig_profile.c:731-841 | by positions: the URL is that of the label's own string entry of directory type on the first line that has one; without any, what the first line that offers anything offers |
| AgentMeaning.LineMatchExactly | src/ngx_auth_httpsig_profile.c:731-759 | a line matches the label exactly by the entry under that key |
| AgentMeaning.FallbackExactly | src/ngx_auth_httpsig_profile.c:797-828 | a line offers its first usable entry, its string item, or itself, and a dictionary nothing else |
| AgentUrl.FindUrl | src/ngx_auth_httpsig_profile.c:783-841 | a match for the label on any line comes before the first usable member, string or raw line |
| AgentUrl.ScanEntries | src/ngx_auth_httpsig_profile.c:731-759 | one pass records the first match and the first usable member, keeping what earlier lines found |
| AgentUrl.FindHost | src/ngx_auth_httpsig_profile.c:973-993 | the lower-cased host of the agent's URL, or nothing |
| AgentUrl.AgentHostIsServerName | src/ngx_auth_httpsig_profile.c:973-993 | the agent host holds no NUL and is the TLS name of the directory its keys are fetched from |
| HostName.FindBounds | src/ngx_auth_httpsig_profile.c:853-949 | the pointer scan accepts exactly the https URLs whose authority, after userinfo, is a name or bracketed address with an optional port, and cuts it there |
| HostName.ScanHost | src/ngx_auth_httpsig_profile.c:883-922 | the host is scanned to its end, or no authority starts here |
| HostName.SkipUserinfo | src/ngx_auth_httpsig_profile.c:872-877 | the authority starts after the last at sign |
| HostName.HostUnique | src/ngx_auth_httpsig_profile.c:853-949 | an authority has its host end at one place only |
| DirectoryHost.Pipeline | src/ngx_auth_httpsig_directory.c:46-205 | for every accepted URL normalization succeeds, keeps the port unless it is 443, is idempotent on its result, and the TLS name is the lower-cased host |
| DirectoryHost.IdempotentExactly | src/ngx_auth_httpsig_directory.c:136-143 | normalizing an accepted host again changes it exactly when it ends in the default port twice |
| DirectoryHost.NotIdempotent | src/ngx_auth_httpsig_directory.c:136-143 | for every name, a second default port behind the first is stripped by a second normalization |
| HostNormalizer.Normalize | src/ngx_auth_httpsig_directory.c:46-146 | the passes over the bytes give the specified normalized host or the first reason against it |
| HostNormalizer.TlsName | src/ngx_auth_httpsig_directory.c:150-205 | the scan strips exactly a well-formed port |
| HostMeaning.LowerExactly | src/ngx_auth_httpsig_directory.c:130-135 | lower case changes the capital letters, each to its small one, and nothing else |
| HostMeaning.BoundsExactly | src/ngx_auth_httpsig_profile.c:853-949 | the bounds are those of a URL that is https:// in any case, user information or none, a name or bracketed address with a port or none, and what a slash, question mark or number sign begins; no other text has any |
| HostMeaning.NormalizedExactly | src/ngx_auth_httpsig_directory.c:46-146 | each answer of normalization exactly when it is given: empty, with a scheme, with a wildcard, with a byte no host has, or accepted |
| HostMeaning.NameExactly | src/ngx_auth_httpsig_directory.c:125-145 | an accepted host is the text in lower case, without :443 at its end unless that is all there is |
| HostMeaning.ServerNameExactly | src/ngx_auth_httpsig_directory.c:150-205 | a well-formed port behind a name or an address is cut off for TLS; anything else behind it leaves the text as it is |
| AgentMeaning.HostExactly | src/ngx_auth_httpsig_profile.c:973-993 | the agent host is the lower-case host of that URL, and empty exactly when there is none |
| CacheTtl.TtlExact | src/ngx_auth_httpsig_directory.c:285-363 | with well-formed directives and bounds below the cap, the time to live is the exact lifetime asked for, less the age, clamped, however the directives are interleaved |
| CacheTtl.SaturatesExactly | src/ngx_auth_httpsig_directory.c:441-465 | for digit strings of any length nothing overflows and the result agrees with the exact value up to the cap |
| CacheTtl.TtlExactly | src/ngx_auth_httpsig_directory.c:285-363 | for every header, the time to live is the exact lifetime asked for, less the age, clamped, for all ages and bounds within the cap, if and only if the header forbids keeping or the last value written to the deciding directive is its last well-formed one, up to the cap |
| CacheTtl.MalformedOverwrites | src/ngx_auth_httpsig_directory.c:599-617 | max-age=60, max-age=x asks for sixty seconds and is given none |
| CacheTtl.ParseUint | src/ngx_auth_httpsig_directory.c:441-465 | the 64-bit accumulation yields the saturated value and the digits consumed |
| CacheTtl.ParseDirective | src/ngx_auth_httpsig_directory.c:566-620 | a directive is recognized exactly when it is its name, an equals sign and digits, and its value cell is written at the equals sign |
| CacheTtl.ReadDirectives | src/ngx_auth_httpsig_directory.c:296-322 | the loop over tokens applies every directive once and in order |
| CacheTtl.DeriveTtl | src/ngx_auth_httpsig_directory.c:285-363 | the whole derivation in 64-bit arithmetic is the specified one |
| CacheMeaning.SplitsAtComma | src/ngx_auth_httpsig_directory.c:296-322 | a comma ends a token, blanks around it do not belong to it, and a last comma ends none further |
| CacheMeaning.GoodExactly | src/ngx_auth_httpsig_directory.c:566-620 | a token is a well-formed directive exactly when it is the name in any case, an equals sign and digits, with blanks around each; these are its value |
| CacheMeaning.ForbidsExactly | src/ngx_auth_httpsig_directory.c:566-597 | a token forbids keeping exactly when it is one of the three words, in any case |
| CacheMeaning.ForbiddenIsNotKept | src/ngx_auth_httpsig_directory.c:566-597 | no-store, no-cache or private, in any case and anywhere in the header, leaves the least time to live |
| CacheMeaning.LastGoodExactly | src/ngx_auth_httpsig_directory.c:285-363 | the value of a directive is that of the last token that spells it |
| CacheMeaning.AskedExactly | src/ngx_auth_httpsig_directory.c:324-363 | what is asked for is the last s-maxage, else the last max-age, else nothing |
| CacheMeaning.ClampExactly | src/ngx_auth_httpsig_directory.c:324-363 | the clamp keeps what lies within the bounds and moves everything else to the nearer one |
| Replay.NeverAcceptedTwice | src/ngx_http_auth_httpsig_module.c:2580-2764 | over every run with a clock that does not go back, a message whose nonce was stored is never accepted for a request that comes later, at any time and on any of its evaluations, remembered verdicts included |
| Replay.TwiceOnlyUnstored | src/ngx_http_auth_httpsig_module.c:2738-2764 | in whatever order their evaluations come, one message is accepted for two requests only when one of them was let in by a full zone and a policy that fails open |
| Replay.RefusedWhileValid | src/ngx_http_auth_httpsig_module.c:2648-2764 | the same identity is refused as a replay as long as the first signature could still be accepted, at that instant included |
| Replay.OnlyReplaysRefused | src/ngx_http_auth_httpsig_module.c:2580-2764 | from an empty zone, every refusal as a replay, remembered or not, is of a message that another request had stored before and a pass of this one repeated: same host, key id and nonce |
| Replay.RefusedMessageIsReplay | src/ngx_http_auth_httpsig_module.c:2580-2764 | under a profile, when redirects keep the header fields, it is the message of the refused pass itself |
| Replay.HeadersFixMessage | src/ngx_auth_httpsig_profile.c:152-355 | passes with the same header fields that verify carry the same host, key id, nonce and expiry |
| Replay.CallExactly | src/ngx_http_auth_httpsig_module.c:2694-2710 | the zone is asked for host, key id and nonce between NULs, for as long as the signature can be accepted and a second at least |
| Replay.WithoutNonce | src/ngx_http_auth_httpsig_module.c:2660-2667 | a verified message without a nonce is accepted or missed by the policy alone, and nothing is remembered |
| Replay.MissingExactly | src/ngx_http_auth_httpsig_module.c:2664-2667 | a nonce is missed exactly when a verified message has none and the policy requires one |
| Replay.DecisionExactly | src/ngx_http_auth_httpsig_module.c:2689-2764 | what a deciding pass answers, by the length of its nonce, what the zone makes of its key, and the policy |
| Replay.FailedExactly | src/ngx_http_auth_httpsig_module.c:2648-2764 | a message that does not verify is refused as such, and only such |
| Replay.AcceptedHasNonce | src/ngx_http_auth_httpsig_module.c:2664-2667 | what is accepted has verified, and has a nonce when the policy requires one |
| Replay.AcceptedIsOnRecord | src/ngx_http_auth_httpsig_module.c:2648-2764 | with nonces required and a policy that fails closed, every accepted pass has the outcome of a pass of its request whose message the zone stored |
| Replay.OneRequestPerMessage | src/ngx_http_auth_httpsig_module.c:2648-2764 | so one message is accepted for one request at most |
| Replay.StaysStored | src/ngx_auth_httpsig_nonce_store.c:207-306 | a stored message stays in the zone through every pass made no later than its expiry |
| Replay.SameKeySameIdentity | src/ngx_auth_httpsig_nonce_store.c:310-339 | one store key stands for one host, key id and nonce of verified signatures |
| Replay.VerifiedInWindow | src/ngx_auth_httpsig_profile.c:284-315 | what verifies under a profile that requires an expiry is not older than the skew before its creation nor younger than the skew after its expiry |
| Replay.ProfileIsSound | src/ngx_auth_httpsig_profile.c:152-355 | verification by a profile that requires an expiry answers only inside the window and with a host and key id that hold no NUL, which is all the theorems here ask of it |
| Replay.WebBotAuthIsSound | src/ngx_auth_httpsig_profile.c:19-36 | the built-in profile is such a profile |
| Replay.MemoFrom | src/ngx_http_auth_httpsig_module.c:2614-2675 | a remembered verdict is the outcome of the earlier pass of the same request that took it |
| Replay.DecidedBy | src/ngx_http_auth_httpsig_module.c:2614-2675 | a pass that verifies with a nonce has the outcome of the pass that decided its request, itself or an earlier one |
| KeyZone.LookupCoherent | src/ngx_auth_httpsig_cache.c:267-362 | a lookup hands out a generation only with the bytes stored for the host under it, on a hit and on a stale answer alike |
| KeyZone.StoreCoherent | src/ngx_auth_httpsig_cache.c:410-486 | a store takes a generation never used before and changes what no other stands for |
| KeyZone.FailureKeepsKeys | src/ngx_auth_httpsig_cache.c:410-512 | a release changes no host's key set or generation; a store that could not take the keys in changes none either, but takes away exactly the node given up for a new host |
| KeyZone.StrandedRightExpires | src/ngx_auth_httpsig_cache.c:308-338 | a right stranded by a dead worker blocks lookups until the thirtieth second and no longer |
| KeyZone.AllocKeepsHeld | src/ngx_auth_httpsig_cache.c:168-240 | making room never takes a node that is being fetched |
| KeyCache.Cache.Lookup | src/ngx_auth_httpsig_cache.c:267-362 | the critical section on the tree of hosts does what the specification does, with a truthful victim |
| KeyCache.Cache.Store | src/ngx_auth_httpsig_cache.c:410-486 | the same for a store, node allocation and generation counter included |
| KeyCache.Cache.Release | src/ngx_auth_httpsig_cache.c:490-512 | the same for a release |
| KeyCache.Cache.ClaimRotation | src/ngx_auth_httpsig_cache.c:366-406 | the same for a rotation claim |
| KeyCache.Cache.AllocNode | src/ngx_auth_httpsig_cache.c:197-240 | a node for a new host, after giving up at most one expired node that is not being fetched |
| KeyCache.Cache.FindVictim | src/ngx_auth_httpsig_cache.c:168-189 | an evictable node whenever there is one |
| FetchInvariants.KeysAlwaysMatchBytes | src/ngx_http_auth_httpsig_module.c:2538-2577 | in every reachable state of every interleaving, a request resolves its keys to the parse of the bytes it holds, and a non-zero generation names exactly those bytes |
| FetchInvariants.AlwaysCoherent | src/ngx_http_auth_httpsig_module.c:2006-2577 | coherence of the zone, of every request and of every worker's parse cache is kept by every step |
| FetchInvariants.ResolvesToParse | src/ngx_http_auth_httpsig_module.c:2538-2577 | resolving through the parse cache is parsing, and keeps the cache coherent |
| FetchInvariants.GivenBackOnce | src/ngx_http_auth_httpsig_module.c:2006-2517 | each evaluation of a request claims at most one right and has given back exactly the rights it claimed when it is finished or destroyed |
| FetchInvariants.RequestGivesBack | src/ngx_http_auth_httpsig_module.c:2006-2517 | a request that redirects evaluate again, each time with a fresh context, has given back as many rights as it claimed when all its evaluations are finished |
| FetchInvariants.FailedRefetchKeeps | src/ngx_http_auth_httpsig_module.c:2428-2489 | a failed refetch changes neither the key set the request holds nor any in the zone |
| FetchExclusion.OneHolder | src/ngx_auth_httpsig_cache.c:266-406 | in every interleaving where holders act within thirty seconds or die, at most one live request holds the right for a host, and its node is there |
| FetchExclusion.SecondHolder | src/ngx_auth_httpsig_cache.c:308-338 | without that, a second request is given the right exactly from the thirtieth second on |
| FetchExclusion.TwoHolders | src/ngx_auth_httpsig_cache.c:308-338 | which happens: a run in which a slow fetch and a second request hold the right for one host |
| FetchExclusion.RotationsApart | src/ngx_auth_httpsig_cache.c:366-406 | while a node lives, rotation claims for its host are at least the retry time apart |
| DirectoryRequest.Request.Handle | src/ngx_http_auth_httpsig_module.c:2006-2245 | the phase handler leaves the request waiting with the right held or finished with every right given back, and re-entry changes nothing |
| DirectoryRequest.Request.LookUp | src/ngx_http_auth_httpsig_module.c:2093-2190 | the answer of the shared cache moves the request as specified, parsing a hit into the worker's cache |
| DirectoryRequest.Request.StartFetch | src/ngx_http_auth_httpsig_module.c:2192-2245 | the cleanup is registered before the subrequest, and a failure of either gives the right back |
| DirectoryRequest.Request.FetchDone | src/ngx_http_auth_httpsig_module.c:2428-2493 | a document that parses is stored and held, anything else gives the right back; the request is finished either way |
| DirectoryRequest.Request.PoolDestroyed | src/ngx_http_auth_httpsig_module.c:2507-2517 | the backstop gives back a right still held, once |
| DirectoryRequest.Request.ResolveKeys | src/ngx_http_auth_httpsig_module.c:2538-2577 | the parsed key set from the worker's cache or a direct parse, as specified |
| DirectoryRequest.ViewTouch | src/ngx_auth_httpsig_keys_cache.c:119-180 | a put into the recency list is a put into the host-to-slot view, pushing out at most the last host of a full list |
| KeyCurrency.LookupExactly | src/ngx_auth_httpsig_cache.c:267-362 | each answer of a lookup exactly when it is given: by expiry, fetch right, key set and room |
| KeyCurrency.LookupYields | src/ngx_auth_httpsig_cache.c:267-362 | what comes with the answer: the host's own key set and generation or none, and the right with the claim only |
| KeyCurrency.RotationExactly | src/ngx_auth_httpsig_cache.c:366-406 | a rotation claim is granted exactly to a host that is there, not under fetch, and not refetched within the retry time |
| KeyCurrency.StoreSets | src/ngx_auth_httpsig_cache.c:410-486 | a store with room sets keys, expiry and a fresh generation and ends the fetch; without, it sets the retry time |
| KeyCurrency.KeepsOthers | src/ngx_auth_httpsig_cache.c:197-240 | of the other hosts only the one given up for a new node is affected |
| KeyCurrency.TruthfulExactly | src/ngx_auth_httpsig_cache.c:168-189 | the node offered to make room is expired and not under fetch, and none is offered only when there is none such |
| KeyCurrency.ServedUntilExpiry | src/ngx_auth_httpsig_cache.c:267-486 | over every run in which the node lives and is not stored or released again, lookups before the expiry yield the stored bytes, and from then on none is a hit |
| KeyCurrency.ServedWhateverRuns | src/ngx_auth_httpsig_cache.c:168-486 | a stored key set is neither given up for another host nor fetched again before it expires, whatever runs until then |
| KeyCurrency.ReleasedUntilRetry | src/ngx_auth_httpsig_cache.c:490-512 | after a release the host is not fetched before the retry time, and its key set is served until then |
| FetchMeaning.LookupMeans | src/ngx_http_auth_httpsig_module.c:2128-2190 | what a first lookup makes of a request, by what the cache holds for the host: keys, a wait for another's fetch, the right to fetch, or none to be had |
| FetchMeaning.LookupSteps | src/ngx_http_auth_httpsig_module.c:2128-2190 | and that is what the handler makes of the request and of the zone |
| FetchMeaning.RotateMeans | src/ngx_http_auth_httpsig_module.c:2150-2190 | with a rotation right a request goes on to fetch, without it ends with the keys it has |
| FetchMeaning.SetupMeans | src/ngx_http_auth_httpsig_module.c:2192-2245 | without the backstop and the subrequest the right is given back, to be retried later |
| FetchMeaning.FetchedMeans | src/ngx_http_auth_httpsig_module.c:2428-2489 | a key set that was fetched is held by the request and kept by the zone for its time to live when there is room, else retried later |
| FetchMeaning.FetchFailedMeans | src/ngx_http_auth_httpsig_module.c:2428-2489 | a fetch that brings nothing leaves the request the keys it has, and the host is retried no sooner than allowed |
| FetchMeaning.DestroyMeans | src/ngx_http_auth_httpsig_module.c:2507-2517 | a pool that is destroyed gives back a right still held, and only then touches the zone |
| FetchMeaning.IneligibleMeans | src/ngx_http_auth_httpsig_module.c:2083-2121 | a request that is not eligible never reaches the zone; one that is not allowed is flagged |
| FetchMeaning.ResolveKeeps | src/ngx_http_auth_httpsig_module.c:2538-2577 | a key set is parsed once a generation and worker: from then on the worker's cache answers |
| FetchMeaning.ResolveBare | src/ngx_http_auth_httpsig_module.c:2538-2577 | without a key set nothing is resolved, and without a generation nothing is cached |
| FetchMeaning.EvaluateMeans | src/ngx_http_auth_httpsig_module.c:2538-2577 | an evaluation resolves the keys with its worker's cache, once, and leaves the zone and other workers alone |
| FetchMeaning.LookupCaches | src/ngx_http_auth_httpsig_module.c:2139-2160 | a lookup that hits parses what it found into its worker's cache; any other leaves the caches alone |
| FetchMeaning.LookupWhenDone | src/ngx_http_auth_httpsig_module.c:2006-2060 | a request that was evaluated before never looks its directory up |
| FetchMeaning.FlaggedWithoutKeys | src/ngx_http_auth_httpsig_module.c:1929-1961 | in every reachable state only finished requests without keys are flagged as without keys |
| LruList.HitsExactly | src/ngx_auth_httpsig_keys_cache.c:98-241 | a get hits exactly when the last put for the host was of that generation and fewer than sixteen distinct other hosts were touched since the host was |
| LruList.AlwaysExplains | src/ngx_auth_httpsig_keys_cache.c:98-241 | over every run, before a host in the list stand exactly the hosts touched since |
| ParseCache.Cache.Get | src/ngx_auth_httpsig_keys_cache.c:98-115 | the sixteen slots and their clock do what the recency list does |
| ParseCache.Cache.Put | src/ngx_auth_httpsig_keys_cache.c:119-180 | the same for a put: the host's own slot, a free one, or the least recently touched |
| ParseCache.Cache.SlotFor | src/ngx_auth_httpsig_keys_cache.c:212-241 | a free slot, or the one with the smallest stamp |
| RedisNonce.OneWinner | src/ngx_auth_httpsig_nonce_store.c:497-610 | with lost commands, lost replies and a retry, at most one request a key is told it was stored during the record's life |
| RedisNonce.AnswerExactly | src/ngx_auth_httpsig_nonce_store.c:497-610 | stored exactly when the command that decides was answered and found the key absent or out, after a retry too; replayed exactly when it was the first and found the key live; the server runs exactly the commands that reach it |
| RedisNonce.ReplayIsAnothers | src/ngx_auth_httpsig_nonce_store.c:570-573 | a request refused as a replay repeats the key of an earlier, different request, never its own |
| RedisNonce.PauseAfter | src/ngx_auth_httpsig_nonce_store.c:380-610 | over every run of checks, after k failed attempts of a worker and no definite answer, whatever pausing checks and odd replies lie between, its pause is the smaller of 2^(k-1) and the limit, at least one second, from the end of the last failure |
| RedisNonce.NotStoredAgain | src/ngx_auth_httpsig_nonce_store.c:520-527 | a message that was stored is not told stored again while it verifies, less the time its command may take to reach the server |
| RedisNonce.StoredAgainWhenLate | src/ngx_auth_httpsig_nonce_store.c:520-527 | with a second's delay at the last accepted instant it can be |
| RedisNonce.FailureDoubles | src/ngx_auth_httpsig_nonce_store.c:380-410 | a failed attempt doubles the pause, from one second up to the limit, starting when the attempt ends |
| RedisNonce.PauseSteps | src/ngx_auth_httpsig_nonce_store.c:497-610 | a failed attempt lengthens the pause, a definite answer ends it, and during it the server is left alone |
| RedisNonce.StoredLives | src/ngx_auth_httpsig_nonce_store.c:520-545 | a stored key lives its time to live and one second more |
| RedisClient.Client.CheckNonce | src/ngx_auth_httpsig_nonce_store.c:497-610 | the check with its connection, retry and pause does what the specification does |
| RedisClient.Client.ArmBackoff | src/ngx_auth_httpsig_nonce_store.c:400-410 | the pause doubles up to the limit and starts when the failed attempt ends |

## Left out

- Structured Fields Lists (src/ngx_auth_httpsig_sfv.c:773-822): the same loop as a dictionary without keys, which the module never calls.
- Error offsets, reason texts and log messages.
- Pool allocation failure inside pure transformations, and parsed strings as pointers into the input: strings are values.
- Tree cells as pointers: cells live in a map from node identities to fields, so addresses are not reused by later nodes.
- The tree's in-order successor function (tests/unit/ngx_compat/ngx_rbtree.c:378-404): neither store calls it.
- Real slab classes and fragmentation: the nonce zone has a byte budget, and in the key cache memory's answers are free inputs.
- NonceStore.Store.ShmCheck: expiries are unbounded integers; `KeyOrder.TimerOrder` says for which times the wrapped comparison of the source is the same.
- Replay.NeverAcceptedTwice: every request of a run is evaluated under one policy and on one nonce zone, and the other request comes first to be evaluated after the message was stored; `Replay.TwiceOnlyUnstored` is about every order.
- NonceRuns.NoReplay: the hash may be any function of the key, so the CRC tables are not modelled.
- RedisNonce.OneWinner: the server's clock is read per command and need not run forward; every command the server runs for the later checks is required to run before the record ends.
- KeyZone.StoreCoherent: generations are unbounded; the counter of the source wraps after 2^64 stores.
- ParseCache.Cache.Put: the clock is unbounded, and the failure to create a pool for an entry is the `works` parameter of its caller.
- FetchInvariants.GivenBackOnce: a context is one evaluation of a request, as an internal redirect starts a fresh one; a crash removes it without giving back, and such a right is what `KeyZone.StrandedRightExpires` is about.
- Ed25519, JWKS and JSON parsing, key chains and the mapping of key errors: arbitrary functions of their inputs.
- Configuration parsing, directive setters, variables, phase registration, status codes and response checks.
- Subrequest and upstream mechanics, sockets and timeouts: events with any outcome.
- The deny decision and reason names: each is settled by one branch.
