# Verified model of the peer-to-peer library and parts of the OpenSSL tools

This project models the algorithms of the `ptp` library and a few routines of `openssl/apps` in
Dafny 4.11 and proves what they promise. Each module follows one source file or one component:

| module | component |
|---|---|
| `PtpKey` | streaming and one-shot authenticated encryption |
| `PtpStore` | the certificate archive: entries, PKCS #12 export and import (RFC 7292, section 4.2) |
| `PtpEncode` | Base64 (RFC 4648, section 4; decoding as in RFC 2045, section 6.8) |
| `PtpPattern`, `PtpCollect` | wildcard patterns, extension lists, and the scan of directory trees |
| `PtpList` | the intrusive circular list |
| `PtpHttp`, `PtpNet`, `PtpArrival` | HTTP header text, the connection that reads and writes it, and what it reads when the stream arrives in pieces |
| `PtpAuth` | challenge and response authentication over histories |
| `ResolverCache` | the four-entry host name cache of `s_client` and `s_server` |
| `CrlfExpansion` | the in-place line feed expansion |
| `CaPolicy`, `CaDatabase` | the certificate authority's name policy, and its database over whole runs |
| `ResumableSearch`, `Common` | searching from the previous result; small shared definitions |

Code that changes state is modelled by classes and methods with the same loops, and each method is
proved against a function or predicate that says what it computes; the laws of the components are
lemmas about these. Buffers are arrays, and reads and writes that may be short are methods with any
outcome the system allows, so results hold for every way the data is cut into pieces.

Libraries the code calls are parameters or symbols: the stream cipher is a keystream, a digest is a
function with results of fixed length, an archive carries the passwords it was made with, the file
system is a finite map, and clocks, time format checks and name servers are parameters.

Where the code does not do what its documentation says, the model follows the code:

- `EncodeBase64` documents `2 * size + 4` characters of output; with one byte per line that can be
  too few, for seven bytes for one, and the first output character of two or more bytes is never
  written (`PtpEncode.DocumentedSize`, `PtpEncode.EncodedContent`); `PtpEncode.FirstCharacterHarmless`
  says when the text can still be decoded. The value its example shows is not the encoding of its
  example bytes (`PtpEncode.DocumentedExample`).
- `DecodeBase64` documents `size / 2` bytes of output, which is too few for four letters
  (`PtpEncode.DocumentedDecodeSize` says exactly when it is enough).
- Streaming `Decrypt` documents -1 for every error. When a digest is expected and the input after
  the vector, or the buffer, is shorter than one, it does not get to return: it hands the digest a
  negative count, which the library takes for a huge unsigned one (openssl/crypto/evp/digest.c:70-74)
  and promises nothing for. The model makes this an outcome of its own and says exactly when it
  occurs (`PtpKey.Key.DecryptStream`, `PtpKey.EmptyInput`).
- An archive gives a certificate that was written without its key the names of the entry after it,
  and each further round moves names on (`PtpStore.RoundTripExact`, `PtpStore.Drift`). A private key
  is documented to be shrouded under a password; it is always written as a plain key bag
  (`PtpStore.NeverShrouded`).
- The extension list `.gz;.tar` of the `Add` example asks for two periods in a file name
  (`PtpPattern.ItemWithPeriod`).
- A host name longer than 128 characters is answered with the address of any cached name that
  starts with the same 128 (`ResolverCache.AnswersRightIff`), and a name of exactly 128 with that of
  a longer one that starts with it (`ResolverCache.WholeKeyAnsweredWrong`); shorter names never are
  (`ResolverCache.ShorterNameAnswersRight`).
- Where an HTTP header ends depends on the pieces in which it arrives when two bare line feeds come
  before the blank line and both can be in the buffer at once (`PtpArrival.HeaderSettledIff`,
  `PtpNet.ReadTwice`).
- A certificate with serial number 0 or with an expiry date that is not a UTC time makes the database
  fail its own checks at the next start (`CaDatabase.CertifiedLoadable`).

## Model

| member | source | states |
|---|---|---|
| `PtpKey.ReadAll` | ptp/key.cpp:608-625 | reads until the buffer is full, the source ends or it fails, and returns the bytes that were there |
| `PtpKey.WriteAll` | ptp/key.cpp:637-663 | writes all of the data in any number of pieces, or fails with a prefix written; without a sink only counts |
| `PtpKey.SealIs` | ptp/key.cpp:310-393 | the sealed message byte by byte: the vector, or eight zeros standing for it and not sent, then plaintext and digest under the keystream of the key and that vector |
| `PtpKey.CarriedIs` | ptp/key.cpp:416-540 | what a message carries byte by byte: all after the vector but the last twenty bytes if a digest is expected |
| `PtpKey.OpenIs` | ptp/key.cpp:512-540 | a message opens exactly when it is long enough and the digest in it is that of what it carries |
| `PtpKey.OpenSeal` | ptp/key.cpp:310-540 | opening undoes sealing for every plaintext, also the empty one, every vector, with and without digest |
| `PtpKey.SealOpen` | ptp/key.cpp:416-540 | a message that opens is the seal of what it opens to: no two messages under one vector carry the same text |
| `PtpKey.Key.EncryptStream` | ptp/key.cpp:310-393 | what is written is always a prefix of the seal of what was read, all of it on success, and callbacks that never fail mean success with all input read |
| `PtpKey.Key.EncryptBody` | ptp/key.cpp:338-389 | the part after the vector: the data in pieces, then the digest, equals the sealed body |
| `PtpKey.HoldingStep` | ptp/key.cpp:449-510 | what was sent, together with the decryption of the bytes still held back, stays the decryption of everything received, and no digest byte is sent |
| `PtpKey.HoldingEnd` | ptp/key.cpp:512-536 | at the end of input the held bytes split into the last data and the digest |
| `PtpKey.MoveToFront` | ptp/key.cpp:484-486 | the memmove keeps exactly the held bytes, at the front of the buffer |
| `PtpKey.Key.DecryptData` | ptp/key.cpp:446-510 | the receiving loop, for every schedule of short reads and every buffer size |
| `PtpKey.Key.DecryptTail` | ptp/key.cpp:512-536 | the end of the data is sent and the digest checked; the digest call gets a negative count exactly when a digest is expected and the body is shorter |
| `PtpKey.Key.DecryptStream` | ptp/key.cpp:416-540 | only a prefix of the carried data is ever written, and with callbacks that never fail all of it, also when its digest is wrong; otherwise than by a negative count it ends with the size exactly when the message opens, and with -1 when not; all input is taken exactly when it fits or the buffer exceeds forty bytes with a digest, none without; the negative count occurs exactly when a digest is expected and the input after the vector, or the buffer, is shorter |
| `PtpKey.EmptyInput` | openssl/crypto/evp/digest.c:70-74 | an empty input without a vector leads to the negative count when a digest is expected |
| `PtpKey.StreamRoundTrip` | ptp/test.cpp:263-300 | sealing and opening gives the plaintext back for every schedule and every admissible, possibly different, pair of buffer sizes |
| `PtpKey.Key.EncryptOnce` | ptp/key.cpp:136-202 | writes the same seal as the streaming form, only the size without an output buffer, and rejects an empty plaintext |
| `PtpKey.Key.DecryptOnce` | ptp/key.cpp:221-290 | writes the opened data exactly when the message opens and is not empty, and nothing otherwise |
| `PtpStore.Entries.InsertIdentity` | ptp/store.cpp:1180-1205 | appends a certificate entry; an identifier of size 0 is none, -1 makes it a string |
| `PtpStore.Entries.InsertData` | ptp/store.cpp:1217-1259 | appends a key exactly under the reserved name, cut or padded to 16 bytes, and a secret under any other |
| `PtpStore.Entries.ImportBag` | ptp/store.cpp:970-1029 | one turn of the bag loop moves what is pending and the remaining bags towards the result |
| `PtpStore.Entries.ImportBags` | ptp/store.cpp:963-1040 | the loop with its pending certificate equals a pairing of each bag with only the bag after it |
| `PtpStore.Entries.Import` | ptp/store.cpp:925-1049 | an error exactly for the wrong authentication password; safes that cannot be opened are passed over |
| `PtpStore.Entries.Export` | ptp/store.cpp:1060-1168 | the archive holds the bags of all entries, in order, in one safe |
| `PtpStore.CertificateRead` | ptp/store.cpp:963-1040 | in any run of bags a certificate takes its key from the bag behind it, from a shrouded one under the right password only, is then to be exported, and keeps its own names before a key bag or at the end, else takes those of the bag behind it |
| `PtpStore.SecretRead` | ptp/store.cpp:1013-1026 | in any run of bags secret data becomes a secret, or under the reserved name a key cut or padded to sixteen bytes |
| `PtpStore.KeptIs` | ptp/store.cpp:1193-1202 | an empty identifier is kept as none, any other as it is |
| `PtpStore.SafesRead` | ptp/store.cpp:938-1043 | the entries of an archive are those of its safes in order, an encrypted one only under its password |
| `PtpStore.Written` | ptp/store.cpp:1060-1130 | each entry is written as one bag with its names, and a bag with its private key, without names, follows exactly if that is there and to be exported; nothing else is written |
| `PtpStore.PairedKeepsOrder` | ptp/store.cpp:963-1040 | of any archive each decodable certificate and secret becomes one entry, in order, whatever else it holds, and all entries are well formed |
| `PtpStore.PairedFlatten` | ptp/store.cpp:925-1130 | reading back any list gives the same entries in order, private keys only if exported, names as specified |
| `PtpStore.RoundTrip` | ptp/store.cpp:925-1168 | for every list and all four passwords: what reading back yields |
| `PtpStore.RoundTripExact` | ptp/store.cpp:925-1130 | a list comes back unchanged exactly when no private key is withheld, no identifier is empty and no keyless certificate precedes other names |
| `PtpStore.NeverShrouded` | ptp/store.cpp:1121-1129 | no private key is shrouded, and the plain key bags are exactly those of the identities that have a key and are to be exported with it |
| `PtpStore.SingleRoundTrip` | ptp/store.cpp:593-678 | one exported certificate comes back with its key under the right passwords, and nothing under others |
| `PtpStore.Drift` | ptp/store.cpp:925-1130 | after n rounds a keyless certificate carries the names of the entry n places on, up to the end of its run |
| `PtpStore.Store.Load` | ptp/store.cpp:150-192 | the old entries are gone even when reading fails; otherwise the entries of the archive |
| `PtpStore.Store.Save` | ptp/store.cpp:198-235 | writes the archive of the current entries |
| `PtpStore.Store.InsertIdentity` | ptp/store.cpp:272-287 | the private key is dropped unless it is to be exported; -1 and no change without a certificate |
| `PtpStore.Store.InsertKey` | ptp/store.cpp:345-357 | a key is stored whole under the reserved name |
| `PtpStore.Store.InsertSecret` | ptp/store.cpp:414-425 | a secret is stored whole, or as a key under the reserved name |
| `PtpStore.Store.Find` | ptp/store.cpp:489-517 | the first entry after the previous result with the type, name and identifier asked for |
| `PtpStore.Store.FindIdentity` | ptp/store.cpp:538-570 | the first certificate after the previous result with the name, key and modulus asked for |
| `PtpStore.WantedIs` | ptp/store.cpp:502-511 | what a search for entries asks for: type, name and identifier, each if given |
| `PtpStore.WantedIdentityIs` | ptp/store.cpp:545-560 | what a search for certificates asks for: name, private key and modulus, each if given |
| `ResumableSearch.WalkVisitsEach` | ptp/store.cpp:489-570 | repeating a search from its previous result visits each matching entry once, in list order, then none |
| `PtpEncode.SextetsOfGroup` | ptp/encode.cpp:85-127 | the four pieces of three octets are the digits of their 24 bits in base 64 |
| `PtpEncode.AlphabetIs` | ptp/encode.cpp:55-57 | the letters are those of the alphabet, in its order |
| `PtpEncode.GroupEncoded` | ptp/encode.cpp:65-130 | each group of octets is written as the letters for the digits of its bits in base 64, and equals signs where nothing is left |
| `PtpEncode.EncodeInto` | ptp/encode.cpp:65-130 | the backward loops fill every cell of the output with the encoding and its line breaks, and change nothing after it |
| `PtpEncode.EncodeBase64` | ptp/encode.cpp:52-130 | errors, sizes given as -1, the size returned, and the text written |
| `PtpEncode.EncodedContent` | ptp/encode.cpp:52-130 | without line breaks the text is the standard encoding, and there are (size - 1) / bpl breaks, one less written for one byte per line |
| `PtpEncode.BreakPlaces` | ptp/encode.cpp:98-106 | each line break stands right after the letters that the octets before it complete |
| `PtpEncode.LineIsEncoding` | ptp/encode.cpp:98-106 | with lines of a multiple of three bytes each full line is the encoding of its bytes |
| `PtpEncode.LastLineIsEncoding` | ptp/encode.cpp:98-106 | and so is the last line, which may be shorter |
| `PtpEncode.DocumentedSize` | ptp/encode.cpp:43-67 | the documented output size suffices exactly for two or more bytes per line, or short data; not for seven bytes, one per line |
| `PtpEncode.DocumentedExample` | ptp/encode.cpp:48-51 | the example's value is not the encoding of its four bytes, but of four others |
| `PtpEncode.LetterOfValue` | ptp/encode.cpp:149-180 | every character that has a value is the letter of that value |
| `PtpEncode.OctetsOfGroup` | ptp/encode.cpp:182-189 | the three octets of four letters are the digits of their 24 bits in base 256 |
| `PtpEncode.GroupDecoded` | ptp/encode.cpp:168-192 | each group of letters is read as the digits of its bits in base 256, as far as they make whole octets |
| `PtpEncode.DecodeBase64` | ptp/encode.cpp:145-193 | errors, sizes, and the octets written, for every text |
| `PtpEncode.DecodeText` | ptp/encode.cpp:168-192 | the bit-phase loop writes the octets made of all letters of the alphabet in the text |
| `PtpEncode.IgnoredCharacters` | ptp/encode.cpp:173-180 | characters outside the alphabet can be put anywhere without effect |
| `PtpEncode.DecodedSize` | ptp/encode.cpp:145-193 | three octets for four letters, rounded down |
| `PtpEncode.DocumentedDecodeSize` | ptp/encode.cpp:132-143 | when the documented output size suffices, and a text for which it does not |
| `PtpEncode.DecodeEncoded` | ptp/encode.cpp:52-193 | decoding what was encoded gives the data back for every number of bytes per line, with one byte per line from the first character that was written |
| `PtpEncode.FirstCharacterHarmless` | ptp/encode.cpp:77-107 | with one byte per line the whole text decodes to the data exactly when the character that was not written is outside the alphabet, or the encoding of whole groups consists of it alone |
| `PtpPattern.CmpPat` | ptp/collect.cpp:351-398 | 0 exactly when the name matches the pattern; it ends because it calls itself on shorter patterns |
| `PtpPattern.Elements` | ptp/collect.cpp:357-395 | what each element of a pattern matches; a backslash at the end matches nothing |
| `PtpPattern.CompleteOrNot` | ptp/collect.cpp:384-387 | a pattern has a character for each backslash, or lacks one for its last character only |
| `PtpPattern.PlainMatches` | ptp/collect.cpp:388-393 | a pattern without wildcards and backslashes matches exactly its own text, up to case |
| `PtpPattern.FoldsAlike` | ptp/collect.cpp:389-390 | two characters are the same up to case exactly when they are equal or the two cases of one letter |
| `PtpPattern.SkipRun` | ptp/collect.cpp:366-374 | a run of stars and question marks is one star after as many single characters |
| `PtpPattern.SearchEnds` | ptp/collect.cpp:377-383 | trying every nonempty end decides a star, but for the empty end |
| `PtpPattern.EscapeMatches` | ptp/collect.cpp:384-393 | escaped text matches exactly itself, up to case |
| `PtpPattern.MatchesAnyCase` | ptp/collect.cpp:389-393 | the case of a name does not matter |
| `PtpPattern.MatchesConcat` | ptp/collect.cpp:351-398 | a pattern followed by another matches exactly a string of the one followed by a string of the other |
| `PtpPattern.CmpExt` | ptp/collect.cpp:637-661 | 0 exactly for an empty list or a name that ends in a period and a listed item, up to case |
| `PtpPattern.ExtensionIs` | ptp/collect.cpp:648-656 | a name has an extension exactly when it consists of something, a period, and the item up to case |
| `PtpPattern.ItemsSplit` | ptp/collect.cpp:644-659 | any number of semicolons ends an item, and only a list that starts with one has an empty item |
| `PtpPattern.ItemsOfJoin` | ptp/collect.cpp:642-660 | the items of a list joined with semicolons are just these |
| `PtpPattern.ItemWithPeriod` | ptp/collect.cpp:458-469 | an item written with its period matches only names with two |
| `PtpCollect.Directories` | ptp/collect.cpp:542-618 | the work list ends for every finite tree and yields the directories in visiting order |
| `PtpCollect.VisitsStep` | ptp/collect.cpp:545-618 | opening a directory replaces it by itself and what is below it |
| `PtpCollect.PushedConcat` | ptp/collect.cpp:555-610 | the subdirectories listed later are visited first |
| `PtpCollect.TreeIsReachable` | ptp/collect.cpp:533-617 | a directory is visited exactly when it can be opened and reached from the root through others that can |
| `PtpCollect.TreeDistinct` | ptp/collect.cpp:533-617 | no directory is visited twice |
| `PtpCollect.ScannedHas` | ptp/collect.cpp:533-740 | a scan finds exactly the files with a listed extension in the reachable directories, each with its name, path, size and context |
| `PtpCollect.ScannedName` | ptp/collect.cpp:78-99 | where names have no slashes, the name of such an entry is the one listed |
| `PtpCollect.AddedConcat` | ptp/collect.cpp:668-740 | files listed later stand in front |
| `PtpCollect.ScannedAllConcat` | ptp/collect.cpp:515-524 | and so do those of directories scanned later |
| `PtpCollect.ScannedDistinct` | ptp/collect.cpp:533-740 | and finds each of them once |
| `PtpCollect.RescanTwice` | ptp/collect.cpp:502-527 | a second rescan of an unchanged file system leaves the same entries in the same order |
| `PtpCollect.Collection.Add` | ptp/collect.cpp:314-326 | a new entry goes in front with the next number; sizes and numbers stay right; none is ignored |
| `PtpCollect.Collection.Destroy` | ptp/collect.cpp:332-343 | one entry is taken out and the size follows |
| `PtpCollect.Collection.Find` | ptp/collect.cpp:414-434 | the first entry after the previous result whose name matches the pattern |
| `PtpCollect.Collection.FindId` | ptp/collect.cpp:441-456 | the only entry with a number, or none |
| `PtpCollect.Collection.AddDirectory` | ptp/collect.cpp:470-475 | registers a directory in front of the others |
| `PtpCollect.Collection.ScanDir` | ptp/collect.cpp:668-740 | adds the listed files of one directory |
| `PtpCollect.Collection.Scan` | ptp/collect.cpp:533-629 | adds the listed files of a directory and all below it |
| `PtpCollect.Collection.Rescan` | ptp/collect.cpp:502-527 | the entries are what all registered directories hold now and, behind it, those that were added by hand, unchanged and with their numbers; the size is their number and entry numbers stay distinct |
| `PtpCollect.BaseNameOf` | ptp/collect.cpp:78-99 | the name of an entry is the name its directory lists |
| `PtpList.List.GetHead` | ptp/list.cpp:174-178 | the first entry, or none for an empty list |
| `PtpList.List.GetTail` | ptp/list.cpp:184-188 | the last entry, or none for an empty list |
| `PtpList.List.Insert` | ptp/list.cpp:200-212 | prepends, keeping one ring through the sentinel |
| `PtpList.List.Append` | ptp/list.cpp:224-236 | appends, keeping one ring through the sentinel |
| `PtpList.List.Remove` | ptp/list.cpp:250-263 | takes an entry out of the ring it is in; an entry in none stays as it is |
| `PtpList.List.RemoveAll` | ptp/include/ptp/list.h:93-118 | the iteration macro visits every entry although its body removes the current one |
| `PtpList.Perform` | ptp/list.cpp:200-263 | one operation on the linked nodes does what it does to a sequence |
| `PtpList.Run` | ptp/list.cpp:164-263 | so does every sequence of operations, repeated removals included |
| `PtpHttp.EndPrefix` | ptp/net.cpp:1090-1112 | where the end of a header is found in a first part of a text |
| `PtpHttp.UniformUnlessBareFirst` | ptp/net.cpp:1090-1112 | the end is the same for every part at hand exactly when no two bare line feeds come first |
| `PtpHttp.RuledEnd` | ptp/net.cpp:1090-1112 | a header made of lines ends at its blank line, whatever follows it |
| `PtpHttp.EndIs` | ptp/net.cpp:1090-1104 | the first blank line ends a header, and two bare line feeds only one without a blank line |
| `PtpHttp.AtIs` | ptp/net.cpp:1090-1104 | a place of a pattern splits the text around it |
| `PtpHttp.FieldFound` | ptp/net.cpp:694-700 | the search for a field finds the line that starts with it |
| `PtpHttp.ParseDecimal` | ptp/net.cpp:680-701 | a printed number is read back |
| `PtpHttp.ParseNumber` | ptp/net.cpp:689-700 | spaces, a sign or none, and digits are read as their number, and text without digits as 0 |
| `PtpHttp.DecimalIs` | ptp/net.cpp:893-901 | a number is printed in decimal without leading zeros |
| `PtpHttp.StatusRead` | ptp/net.cpp:680-692 | a header that starts with HTTP has the number after the first run of spaces as its status, whatever stands before the spaces and after the number |
| `PtpHttp.StatusMissing` | ptp/net.cpp:680-692 | every other header has status 400 |
| `PtpHttp.ContentRead` | ptp/net.cpp:694-700 | the first line after the status line that starts with Content-length:, or without one with Content-Length:, gives its number as the content size |
| `PtpHttp.ContentMissing` | ptp/net.cpp:694-700 | and without such a line the content size is -1 |
| `PtpHttp.StatusLineIs` | ptp/net.cpp:885-893 | the first line of a response names the status, and the reason for four of them |
| `PtpHttp.ResponseIs` | ptp/net.cpp:885-902 | then come the extra lines, type and size unless the size is 0, and a blank line |
| `PtpHttp.ResponseReadBack` | ptp/net.cpp:867-910 | the header of a response ends exactly where its body starts |
| `PtpHttp.StatusReadBack` | ptp/net.cpp:680-692 | the status read from a response is the one written exactly when it is not negative |
| `PtpHttp.SizeReadBack` | ptp/net.cpp:694-700 | the content size read from a response is the one written, or -1 when it was 0 |
| `PtpNet.Connection.Unget` | ptp/net.cpp:1009-1034 | data handed back comes first in what is still to be read |
| `PtpNet.Connection.Get` | ptp/net.cpp:1058-1082 | takes queued data from the front, and only that |
| `PtpNet.Connection.Read` | ptp/net.cpp:981-1001 | takes the next bytes of the queue and the socket as one stream; a size that is not positive is returned as it is |
| `PtpNet.Connection.UngetData` | ptp/net.cpp:1090-1112 | what was read beyond the end of the header is handed back, unchanged |
| `PtpNet.Connection.ReadHeader` | ptp/net.cpp:630-671 | the loop with its growing buffer loses no byte, stays below the size limit, and stops at an end, at the limit, or when there is no more |
| `PtpNet.Connection.ReadHttpHdr` | ptp/net.cpp:619-703 | header and rest make up the stream as it was, and the header is shorter than the limit; its length depends on the stream, what of it is queued and the pieces of the rest only; when nothing is returned without an error, nothing was read |
| `PtpNet.HeaderExact` | ptp/net.cpp:619-703 | the header is exactly the one that is there, for every cutting of the stream, when it fits and no two bare line feeds come first |
| `PtpNet.HeaderTruncated` | ptp/net.cpp:638-642 | a header that does not fit is cut at one byte less than the limit |
| `PtpArrival.HeaderSettledIff` | ptp/net.cpp:619-703 | with any number of bytes handed back before, the header is the same for every schedule of reads exactly when two bare line feeds do not come before a blank line that ends within the room the buffer then has, or are among the bytes handed back, and which header it is; else byte by byte and all at once give two headers |
| `PtpArrival.CapacityIs` | ptp/net.cpp:632-658 | the buffer has the given size, or starts with 512 bytes and doubles until what is wanted fits |
| `PtpNet.ReadTwice` | ptp/net.cpp:619-703 | reading one such stream twice, with two schedules, gives both headers |
| `PtpNet.Connection.WriteAll` | ptp/net.cpp:944-972 | everything is sent, in any number of pieces, or a first part of it when it fails |
| `PtpNet.Connection.WriteHttp` | ptp/net.cpp:867-910 | the header and the data are sent, or an error is returned and a first part of them was sent |
| `PtpNet.Exchange` | ptp/net.cpp:619-910 | reading a response gives the header, status and size that were written and leaves exactly the body |
| `PtpAuth.SearchConserves` | ptp/auth.cpp:192-226 | checking a response neither loses nor makes up a pending entry |
| `PtpAuth.SearchFinds` | ptp/auth.cpp:192-226 | the first entry that carries the response and has not expired is found; only expired ones are dropped |
| `PtpAuth.RunSound` | ptp/auth.cpp:108-226 | after every history of calls each issued challenge is pending, consumed or dropped as expired |
| `PtpAuth.ExactlyOne` | ptp/auth.cpp:108-226 | and exactly one of these |
| `PtpAuth.VerifyExact` | ptp/auth.cpp:192-226 | a response is accepted exactly when an issued, unconsumed, unexpired challenge expects it; the latest such is taken |
| `PtpAuth.RunVerifyExact` | ptp/auth.cpp:108-226 | the same after every history from the start |
| `PtpAuth.IssuedIs` | ptp/auth.cpp:108-141 | a challenge just issued is the one its response finds until its lifetime is over, and then no more |
| `PtpAuth.ClaimedOnce` | ptp/auth.cpp:192-226 | a challenge that was claimed is never claimed again, whatever calls come in between |
| `PtpAuth.Authenticator.Challenge` | ptp/auth.cpp:108-141 | issues one challenge whose response is the digest of its nonce, or fails and changes nothing |
| `PtpAuth.Authenticator.Respond` | ptp/auth.cpp:156-176 | the digest of the decrypted nonce, or an error |
| `PtpAuth.Authenticator.Verify` | ptp/auth.cpp:192-226 | what the removing walk over the list does to the history, and the context it returns |
| `PtpAuth.Handshake` | ptp/test.cpp:176-194 | the reply of the right key to an issued challenge claims it before it expires |
| `ResolverCache.Cache.GetHostByName` | openssl/apps/s_socket.c:494-542 | one call does to the slots what a lookup does to a list ordered by use |
| `ResolverCache.SameKey` | openssl/apps/s_socket.c:494-530 | names are kept apart exactly when they differ in their first 128 characters |
| `ResolverCache.HitStep` | openssl/apps/s_socket.c:535-541 | a hit moves its entry to the front |
| `ResolverCache.MissStep` | openssl/apps/s_socket.c:524-534 | a resolved miss puts its entry in front and drops the fifth |
| `ResolverCache.LeastIsLast` | openssl/apps/s_socket.c:509-517 | the slot with the least count is the one used least recently |
| `ResolverCache.RunKeeps` | openssl/apps/s_socket.c:494-542 | cached names stay distinct and at most four |
| `ResolverCache.RunFaithful` | openssl/apps/s_socket.c:494-542 | over names on which the resolver agrees, every cached address stays the resolver's answer for all of them with its stored name |
| `ResolverCache.AnswersRightIff` | openssl/apps/s_socket.c:494-542 | all calls of all runs over any set of names answer as the resolver would exactly when it agrees on those of them with the same first 128 characters |
| `ResolverCache.ShorterNameAnswersRight` | openssl/apps/s_socket.c:494-542 | after every run, long names included, a name of fewer than 128 characters is answered as the resolver would, whatever the resolver |
| `ResolverCache.WholeKeyAnsweredWrong` | openssl/apps/s_socket.c:502-541 | a name of exactly 128 characters is not, once a longer name that starts with it and has another answer was looked up |
| `ResolverCache.ShortNamesAnswerRight` | openssl/apps/s_socket.c:494-542 | in runs over names of at most 128 characters all of these are answered as the resolver would, whatever the resolver |
| `ResolverCache.HoldsMostRecent` | openssl/apps/s_socket.c:494-542 | after every run over names on which the resolver agrees the cache holds exactly the four most recently used distinct names that resolved |
| `ResolverCache.ShortNamesMostRecent` | openssl/apps/s_socket.c:494-542 | so it does after every run over names of at most 128 characters, whatever the resolver |
| `CrlfExpansion.CollapseExpanded` | openssl/apps/s_client.c:697-718 | the expansion loses nothing |
| `CrlfExpansion.ExpandedIs` | openssl/apps/s_client.c:697-718 | only line feeds are changed, each into a carriage return and a line feed |
| `CrlfExpansion.ExpandLines` | openssl/apps/s_client.c:697-718 | in place, for every text that half fills the buffer, each line feed becomes a carriage return and a line feed |
| `CrlfExpansion.ExpandFrom` | openssl/apps/s_client.c:705-717 | the descending loop reads every character before it is overwritten and ends with no line feed left to make room for |
| `CaPolicy.FindEqual` | openssl/apps/ca.c:1668-1690 | finds an own field equal to the request's, and tells whether there is any of its kind |
| `CaPolicy.ApplyRule` | openssl/apps/ca.c:1624-1709 | one rule takes all fields of its kind, in order, or fails for the reason the policy gives |
| `CaPolicy.Select` | openssl/apps/ca.c:1615-1710 | a request is accepted exactly when no rule finds a fault, with the fields the policy selects, else the first fault is reported |
| `CaPolicy.AcceptedIff` | openssl/apps/ca.c:1615-1710 | a request is accepted exactly when each rule is for a known kind and is optional, or its field is there and for a match all such fields are the authority's own |
| `CaPolicy.FaultIs` | openssl/apps/ca.c:1617-1697 | each fault is reported under its own condition on the fields of request and authority |
| `CaPolicy.SelectedConcat` | openssl/apps/ca.c:1615-1710 | the subject's fields come in the order of the rules |
| `CaPolicy.SelectedFrom` | openssl/doc/apps/ca.pod:308-316 | the subject holds exactly the request's fields whose kind the policy names |
| `CaPolicy.SelectedCount` | openssl/apps/ca.c:1615-1710 | each as often as the request holds it, once for each rule of its kind |
| `CaPolicy.SubjectKeepsPolicy` | openssl/doc/apps/ca.pod:308-316 | mandatory fields are present and matching fields are the authority's own |
| `CaDatabase.SameSerial` | openssl/apps/ca.c:1278-1294 | serials the program writes are alike, up to leading zeros, exactly when they are the same number |
| `CaDatabase.HexIs` | openssl/apps/ca.c:1278-1294 | a serial is written in base 16 with capital digits, two for each byte |
| `CaDatabase.StripIs` | openssl/apps/ca.c:1278-1294 | only leading zeros are passed over when serials are compared |
| `CaDatabase.HexIsSerialText` | openssl/apps/ca.c:671-688 | a serial the program writes passes its own check exactly when it is positive |
| `CaDatabase.CheckRow` | openssl/apps/ca.c:650-689 | the checks on one row when the file is loaded |
| `CaDatabase.RowOkIs` | openssl/apps/ca.c:650-689 | a row is in order when its dates fit its type and its serial is whole bytes in base 16 |
| `CaDatabase.UniqueIs` | openssl/apps/ca.c:705-718 | rows are apart when no two serials are alike and no two valid rows have one name |
| `CaDatabase.IndexSerials` | openssl/apps/ca.c:705-710 | the serial index is built unless two serials are alike |
| `CaDatabase.IndexNames` | openssl/apps/ca.c:712-718 | the name index, of valid rows only, is built unless two names are the same |
| `CaDatabase.Database.Load` | openssl/apps/ca.c:646-718 | a file is loaded exactly when it passes all checks |
| `CaDatabase.Database.Insert` | openssl/crypto/txt_db/txt_db.c:298-338 | a row is appended unless an index holds its serial, or its name |
| `CaDatabase.Database.Certify` | openssl/apps/ca.c:1722-1910 | a certificate is added unless its name is valid elsewhere or its serial exists |
| `CaDatabase.CertifiedIs` | openssl/apps/ca.c:1722-1910 | certifying fails exactly on a serial on record or a name that is valid, and else adds one valid row at the end |
| `CaDatabase.Database.Revoke` | openssl/apps/ca.c:2126-2235 | a known certificate is marked, an unknown one added first, with the errors in between; it calls itself once at most |
| `CaDatabase.RevokedKnown` | openssl/apps/ca.c:2200-2226 | revoking a serial on record, with its name and not revoked before, changes type and revocation date of its row, and nothing else |
| `CaDatabase.RevokedUnknown` | openssl/apps/ca.c:2133-2199 | revoking another serial adds its row, already revoked, unless its name is valid elsewhere |
| `CaDatabase.RunSession` | openssl/apps/ca.c:640-1243 | what one start of the program does to the file, with the requests that stop it |
| `CaDatabase.OneRequest` | openssl/apps/ca.c:891-927 | what one request does: passed over, stopped, declined or certified |
| `CaDatabase.RequestsConcat` | openssl/apps/ca.c:848-927 | the requests of a session are taken one after another until one stops it |
| `CaDatabase.IssuedRow` | openssl/apps/ca.c:848-927 | the certified requests add rows in order, with consecutive serials |
| `CaDatabase.IssuedCount` | openssl/apps/ca.c:848-927 | one each, and no other row changes |
| `CaDatabase.SavedIs` | openssl/apps/ca.c:928-1243 | the file stays as it was when a session is stopped or new certificates are not committed, and else has the new rows and the revocation |
| `CaDatabase.RunIs` | openssl/apps/ca.c:640-1243 | each session starts from the file the one before it left, and leaves it alone if it cannot load it |
| `CaDatabase.RunKeeps` | openssl/apps/ca.c:640-1243 | over any number of sessions serials and the names of valid rows stay unique, no row is lost or taken back from revoked, and of a row only type and revocation date ever change, once |
| `CaDatabase.RunDated` | openssl/apps/ca.c:640-1243 | and a revocation date stands exactly on the revoked rows, if it does in the file at the start and the clock yields some text |
| `CaDatabase.LoadableDated` | openssl/apps/ca.c:650-689 | so it does in every file the load checks accept, when the empty text is not a date |
| `CaDatabase.RevokedForever` | openssl/apps/ca.c:2126-2235 | a revoked serial can never be issued or revoked again |
| `CaDatabase.CertifiedLoadable` | openssl/apps/ca.c:650-689 | a new row leaves a file that can be loaded exactly when its expiry date is well formed and its serial positive |
| `CaDatabase.RevokedLoadable` | openssl/apps/ca.c:650-689 | the same for revoking, with the date of revocation |
| `CaDatabase.RunLoadable` | openssl/apps/ca.c:646-718 | with well-formed dates and positive serials every file the program writes can be loaded |

## Left out

- Integer overflow, clock wrap-around and memory exhaustion anywhere: numbers are unbounded.
- Locks and threads: each call runs alone.
- RSA, X.509, PKCS #7, ASN.1 and cipher internals: parameters and symbols, as said above.
- PtpKey.Key.EncryptOnce: overlapping input and output other than the same buffer is not modelled, because the result depends on the library.
- PtpKey.Key.EncryptStream: one context used for reading and writing the same memory is not modelled.
- PtpKey.Key.DecryptStream: what the process does once the digest was given a negative count is not modelled; the library promises nothing for it.
- `Key::Transfer`, key derivation from a password, and key export: single calls into the library.
- PtpEncode.EncodeBase64: data of size 0 with an output buffer is excluded, because the code then reads before its input.
- PtpEncode.SextetsOfGroup: shifts and masks are written as multiplication, division and remainder.
- PtpStore.Store.InsertSecret: a string of unknown length under the reserved key name is excluded, because the code copies a negative size.
- PtpStore.SingleRoundTrip: an archive whose first entry is not a certificate is not covered, because the code then reads the wrong member of a union.
- Removing archive entries by value, the PEM and envelope formats of the archive, and its Win32 registry store: small or library calls.
- PtpStore.RoundTrip: friendly names are kept as they are; the conversion to and from two-byte characters is not modelled.
- PtpCollect.Directories: links that lead back into the tree make an unbounded set of paths, which a finite map does not have.
- PtpCollect.Collection.Scan: the file system does not change during a scan; path lengths beyond the buffer are not modelled.
- Unregistering a directory, data entries with their own bytes, and the Win32 branches of the scan: easy or different code.
- PtpPattern.CmpExt: case is folded in the "C" locale, by capitals.
- PtpNet.Connection.Read: opening the connection and waiting for data are left out; timeouts are failures.
- PtpHttp.ParseDecimal: numbers too large for the C types are not modelled.
- Reading HTTP bodies, writing requests, proxies and accepting connections.
- ResolverCache.Cache.GetHostByName: the copy of an answer keeps pointers into the library's storage, which the next answer may change; that is not modelled.
- CrlfExpansion.ExpandLines: the same loop in `openssl/apps/s_server.c` is not modelled again.
- CaPolicy.Select: the options that keep the request's own order and that rewrite string types are left out.
- CaDatabase.RunSession: revocation lists, the serial number file, signing, and failures to write files are left out.
- CaDatabase.Database.Revoke: after a revocation the index in memory still holds the name; nothing consults it before the program ends.
