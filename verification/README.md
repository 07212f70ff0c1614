# A verified model of the web server's config, authentication, routing and REST store

This project models, in Dafny, the parts of the web server that decide things, and proves what they promise:

* the Nginx-style config language: the character automaton that reads tokens, the token loop that builds the tree of
  statements in place under a stack of pointers, the printer, and the lookups in the finished tree;
* Basic authentication: base64 decoding with a 32-bit accumulator that overflows, the header, the credentials of the
  config, and when a session expires;
* routing: registration of handlers from the config, and the longest matching path;
* the REST store: targets, ids as decimal text, paths as file names, the least free id.

`dafny verify dfyconfig.toml` checks everything.

## How it is built

Code that changes things step by step is imperative here as well: `ParseToken` moves a stream with push-back, `Parse`
builds `NginxConfig` and `NginxConfigStatement` objects through the pointers on its stack, `Decode` runs the
accumulator loop, a session keeps its buffer and counts its reads and writes, the dispatcher fills a map field, the CRUD handler changes a file system object, and the API handler
fills a response object. Each such method is proved equal to a function of its inputs and the old state, and the
properties are lemmas about those functions. Where a function would only repeat the code, a description that does not
mention it stands beside it: spellings of tokens for the automaton, the grammar for the stack machine, an exact number
for the accumulator, block addresses for the lookups, a map from entity and id to data for the REST interface.

| file | content |
|---|---|
| `Lexer`, `Lexemes` | the tokenizer, and what tokens are |
| `ConfigTree`, `ConfigMachine`, `ConfigGrammar` | trees, printing, the parser on values, the grammar |
| `ConfigRoundTrip`, `ConfigLayout`, `ConfigTail` | printing and parsing again; blanks and comments; text dropped at the end |
| `ConfigObjects`, `ConfigParser`, `ConfigPrinter` | the objects on the heap, `Parse` and `ToString` on them |
| `ConfigLookup`, `ConfigCredentials` | `port`, `timer`, `credentials` |
| `Base64`, `Session`, `SessionRuns` | decoding, authentication, the callbacks of a session, and its life |
| `EndToEnd`, `ConfigurableUsers` | configs and headers; the users that a config text can name |
| `Dispatcher` | registration and longest match |
| `FileStorage`, `CrudHandler`, `ApiHandler` | paths, ids, requests |
| `ApiRefinement`, `ApiRuns`, `ApiIds` | the REST interface against a plain map, over whole runs |
| `ApiLocations` | API locations of a config, from the target to the store |
| `Text` | searching in strings, decimal text |
| `LexemeLaws`, `ConfigLaws`, `LookupLaws`, `CredentialLaws`, `Base64Laws`, `SessionLaws`, `DispatcherLaws`, `ApiLaws`, `TextLaws` | what the functions above compute, with characters, words, numbers and texts written out |
| `ConfigFailure` | what a rejected input leaves behind |

A ghost list of nodes names the objects of a tree, and `Represents(config, nodes)` says that the heap holds that tree
with no object shared; `Value(nodes)` is the tree. The ghost set `reach` of some methods only bounds what they look at.

## What was found

* A tree comes back from its printed text if and only if every statement has a token and every token is one that the
  lexer reads back from its own stored text. Quoted tokens are stored without their backslashes, so `'a\'b'`, stored
  as `'a'b'`, is lost (`EscapedQuoteIsLost`).
* Text that is still a bare word, a comment or an escape when the input ends is dropped without an error: `a; b` is
  accepted with one statement (`WordIsDropped`). An accepted input loses no word and no escape if and only if it is also
  accepted, with the same tree, when a newline is put after it (`NothingLostIff`).
* The comment on `get_config_port` promises the first outermost valid port, and -1 if there is none. The second half is
  kept (`NoneIsMinusOne`). The first is not: `port 70000; port 80;` and `port 70000; server { port 80; }` give -1
  (`HiddenBeside`, `HiddenBelow`). The lookup takes the promised port if and only if no block from the outermost one down to
  that port has a first `port` out of range (`PromisedIff`). The same holds for `timer`.
* `get_credentials` goes into the first statement that has a block and never comes back: with `server { } credentials
  { u:p; }`, or with a `location` before `credentials` in the server block, nobody can log in (`HiddenByBlock`,
  `HiddenByLocation`). A config's only `credentials` block counts if and only if on no level of the way to it a child block
  comes before (`OnlyBlock`).
* A `port` whose text is no number is valid and means 0, since atoi reads it so (`NotANumber`).
* A rejected input leaves a tree: the longest beginning of its tokens with which an accepted input can begin, with the statement
  and the blocks that are open ended (`RejectedTree`).
* The dispatcher takes the slashes from the end of a location's path, and the API handler gets the path in that form.
  POST takes the entity from the last slash of the target, the other requests from the end of the prefix, so they name
  different files unless a slash is lost in the path of the file. `SlashNeeded` and `LocationFindsIff` give the exact
  condition: the location is `/`, or the root setting ends with a slash. Without it nothing that POST stores is ever
  found again (`NeverFound`).
* A request that finds its session expired is refused, but this sets the time, whatever the header, and starts another
  read. The buffer is never emptied, so that read decides on the same request again: any bytes within the allowed time of
  the refusal let it in if its header is good (`SecondChance`). `DispatchedIff` is the exact condition in every run.
* Such a refusal is the only thing that breaks the rule of one read or write at a time: in every run the rule holds throughout
  if and only if no request was late (`AloneIff`). After any late request the next bytes can start a second write beside the
  first, and the second response takes the place of the first (`TwoWrites`); that is how a refused request is let in
  (`RefusedThenLetIn`).
* The time allowed does not run from the connection. A session is created when the server starts to wait for a client, so a
  client that connects later than the allowed time after that is refused on its first complete request, whatever it sends
  (`LateClient`).
* A config text can give u the password p if and only if u has no colon and `u:p` is a bare word or stands between equal
  quotes, which are then part of the user name and the password (`ConfigurableIff`). So no password has a space unless the
  user name starts with a quote.
* A list request shows the ids 1 to n up to the first free one. After POST, POST and DELETE of id 1 the list is empty although
  id 2 is there (`HoleInList`, `HoleOverHttp`). A list that was complete stays so after a deletion if and only if the largest
  id was deleted (`RemovalIff`), and without deletions it is complete if and only if the holes are filled
  (`ListCompleteIff`).

## Model

| member | source | states |
|---|---|---|
| `ConfigLexer.ParseToken` | src/config_parser.cc:72-182 | the loop over the stream with push-back reads the token, leaves the rest of the input, and appends to the value, as the automaton on strings does |
| `ConfigLexer.Stream.Get` | src/config_parser.cc:76-79 | one character off the input; at the end the stream fails and EOF cut to a char comes back |
| `ConfigLexer.Stream.Unget` | src/config_parser.cc:125-162 | the last character is in front of the input again |
| `ConfigLexer.Unescape` | src/config_parser.cc:114-174 | resolving backslashes never lengthens a text, and leaves it alone exactly if it has none |
| `Lexemes.ScanIff` | src/config_parser.cc:72-182 | a token with value v is read and r left if and only if the input is blanks, a spelling of that token that r may follow, and r |
| `Lexemes.EofIff` | src/config_parser.cc:159-181 | end of input is reported if and only if the input is blanks and then nothing, an unfinished word, comment or escape |
| `Lexemes.LexBack` | src/config_parser.cc:72-182 | all input is a token, an end of input or an error, and what was read is accounted for |
| `Lexemes.EscapeComplete` | src/config_parser.cc:93-100 | any string can be written as one quoted token by escaping, and the delimiter after it stays unread |
| `Lexemes.LexQuoted` | src/config_parser.cc:114-152 | a closed quoted text is a token if a delimiter follows and an error for anything else, the end of input included |
| `Lexemes.LexUnclosed` | src/config_parser.cc:167-181 | a quote without an end is an error, but one that ends in a lone backslash is an end of input |
| `LexemeLaws.WordEndsIff` | src/config_parser.cc:159-166 | a word ends at a space, tab, newline, semicolon or brace and at nothing else; at the end of the input it is dropped |
| `LexemeLaws.QuoteEndsIff` | src/config_parser.cc:114-152 | the same characters may follow a closing quote of either kind; with any other, and at the end of the input, it is an error |
| `LexemeLaws.EscapedCharacter` | src/config_parser.cc:167-174 | in quotes a backslash stands for the character after it, whatever that is |
| `LexemeLaws.EscapeLaws` | src/config_parser.cc:130-174 | escaping puts a backslash before each such quote and each backslash and changes nothing else |
| `LexemeLaws.BlankIff` | src/config_parser.cc:104-108 | a space, tab, newline or carriage return before a token is skipped, and nothing else |
| `LexemeLaws.Punctuations` | src/config_parser.cc:83-103 | braces and semicolons are tokens of their own, whatever follows |
| `LexemeLaws.CommentEndsIff` | src/config_parser.cc:153-158 | a comment ends at a newline or a carriage return and at nothing else; at the end of the input it is dropped |
| `ConfigGrammar.GrammarIff` | src/config_parser.cc:183-260 | `Parse` accepts with tree t if and only if the tokens end without an error and t is a derivation of them in the grammar of statements: words, then a semicolon or a block of statements in braces |
| `ConfigGrammar.AcceptsIff` | src/config_parser.cc:183-260 | acceptance is the existence of a derivation |
| `ConfigGrammar.YieldInjective` | src/config_parser.cc:183-260 | the derivation is unique |
| `ConfigGrammar.StepSound` | src/config_parser.cc:199-255 | every iteration keeps the zipper well formed and adds its token to the text that the zipper stands for |
| `ConfigGrammar.YieldLeads` | src/config_parser.cc:199-255 | on any stack of open blocks the tokens of any tree put that tree into the top block |
| `ConfigGrammar.StoredStatementsHaveTokens` | src/config_parser.cc:202-215 | whatever the input and the verdict, every stored statement at any depth has a first token, so later `tokens_[0]` are in range |
| `ConfigGrammar.ParseAppends` | src/config_parser.cc:183-212 | a config that is not empty keeps its statements in front; verdict and new statements are those for an empty config |
| `ConfigFailure.RejectedTree` | src/config_parser.cc:183-260 | the tree of a rejected input has the longest beginning of its tokens that any accepted input has, completed by a semicolon if a statement was being read and a brace for each open block |
| `ConfigLaws.YieldLaws` | src/config_parser.cc:202-240 | the tokens of a statement are its words, then a semicolon, or a brace, the tokens of its block, and a brace |
| `ConfigLaws.WellFormedIff` | src/config_parser.cc:202-240 | a tree is well formed if and only if every statement at any index path has a token; blocks may be empty |
| `ConfigRoundTrip.RoundTripIff` | src/config_parser.cc:18-49 | at any depth, the printed tree parses to the same tree if and only if all statements have tokens and all tokens are printable |
| `ConfigRoundTrip.TokenizePrint` | src/config_parser.cc:26-49 | a printable tree prints, at every depth and before any text, to the token sequence of its derivation |
| `ConfigRoundTrip.NotItsOwnSpelling` | src/config_parser.cc:114-174 | a quoted token that lost a backslash, or holds its own quote, is never a spelling of itself |
| `ConfigRoundTrip.TokenizeStores` | src/config_parser.cc:93-174 | every stored token is a bare word or stands between equal quotes |
| `ConfigRoundTrip.Canonical` | src/config_parser.cc:183-260 | for accepted input without escapes, the printed tree parses to the same tree and prints to the same text again |
| `ConfigRoundTrip.CanonicalIff` | src/config_parser.cc:26-49 | for any accepted input, printing and parsing gives the same result if and only if all stored tokens are printable |
| `ConfigRoundTrip.EscapedQuoteIsLost` | src/config_parser.cc:130-133 | the input for which the round trip fails |
| `ConfigLaws.PrintLaws` | src/config_parser.cc:18-49 | a statement is printed after two spaces for each level, with a semicolon or its block in braces on lines of their own; a config is its statements one after the other |
| `ConfigLaws.JoinLaws` | src/config_parser.cc:31-36 | tokens are printed with one space between two |
| `ConfigLaws.PrintableIff` | src/config_parser.cc:93-166 | a token is printable if and only if it is a word, said with its characters, or stands between equal quotes with neither that quote nor a backslash inside |
| `ConfigLaws.EveryIff` | src/config_parser.cc:26-49 | "every token" means every token of every statement at any index path |
| `ConfigLaws.NoBackslash` | src/config_parser.cc:130-151 | input without a backslash enters no escape state |
| `ConfigLayout.LayoutInsensitive` | src/config_parser.cc:104-162 | blanks and comments inserted where a token ended change no token, if a space, tab or newline comes first |
| `ConfigLayout.ParseIgnoresLayout` | src/config_parser.cc:195-198 | nor do they change the verdict or the tree |
| `ConfigLayout.LayoutIff` | src/config_parser.cc:104-158 | blanks and finished comments, and nothing else, can be put in front of every text without a change of its tokens |
| `ConfigTail.AcceptedTail` | src/config_parser.cc:176-182 | an accepted input is whole tokens, blanks, and then nothing or an unfinished word, comment or escape |
| `ConfigTail.NothingLostIff` | src/config_parser.cc:176-182 | an accepted input ends in blanks or a comment if and only if it is accepted with the same tree with a newline after it; otherwise it is then rejected |
| `ConfigTail.WordIsDropped` | src/config_parser.cc:159-181 | `a; b` is accepted with one statement and `b` is dropped |
| `ConfigObjects.StackIsZipper` | src/config_parser.cc:227-230 | every config on the stack is the child block of the last statement of the config below it |
| `ConfigObjects.Close` | src/config_parser.cc:238-240 | popping keeps the objects apart, and the finished block is the body of the statement that opened it |
| `ConfigObjects.PlugAll` | src/config_parser.cc:184-260 | whenever the loop stops, the objects form one tree under the given config, the open blocks included |
| `ConfigParser.Consume` | src/config_parser.cc:199-255 | the loop body on the objects makes the step of the machine, or breaks exactly where the machine has none; `back()` is always in range |
| `ConfigParser.CloseBlock` | src/config_parser.cc:231-240 | a closing brace makes the block below the top again, or breaks exactly where the machine has no step |
| `ConfigParser.Turn` | src/config_parser.cc:188-256 | one turn keeps the zipper of objects, the relation of stack and last token type, and the final result still to be reached |
| `ConfigParser.Parse` | src/config_parser.cc:183-260 | verdict and tree on the heap are those of the machine, for any config it is given; only new objects and that config's are touched |
| `ConfigPrinter.ToString` | src/config_parser.cc:18-24 | the appending loops print the tree that the objects hold |
| `ConfigPrinter.StatementToString` | src/config_parser.cc:26-49 | the same for one statement |
| `ConfigLookup.GetNumber` | src/config_parser.cc:277-319 | the two loops over the objects are the lookup on the tree, for `port` and for `timer` |
| `ConfigLookup.AnswersIff` | src/config_parser.cc:279-294 | a block answers if and only if its first value is in range and no block around it, found by index paths, has any |
| `ConfigLookup.LookupIff` | src/config_parser.cc:277-319 | the lookup returns n if and only if n is the value of the first answering block in file order; -1 if and only if none answers |
| `ConfigLookup.SomePromised` | src/config_parser.cc:275-276 | if there is any valid value, the promise of the comment names one place |
| `ConfigLookup.PromisedIff` | src/config_parser.cc:275-296 | the lookup takes the promised value from its place if and only if, from the outermost block down to it, no block's first statement of that name is out of range |
| `ConfigLookup.NoneIsMinusOne` | src/config_parser.cc:275-296 | without any valid value the result is -1 |
| `ConfigLookup.HiddenBeside` | src/config_parser.cc:279-285 | `port 70000; port 80;`: 80 is promised, -1 is returned |
| `ConfigLookup.HiddenBelow` | src/config_parser.cc:279-294 | `port 70000; server { port 80; }`: 80 is promised, -1 is returned |
| `LookupLaws.ValueIs` | src/config_parser.cc:279-286 | a block with a childless two-token statement of the name answers with the value of the first one, if that is from 0 to 65535, and else with -1 |
| `LookupLaws.BelowIs` | src/config_parser.cc:287-295 | a block without one answers as its first child block that does not answer -1 |
| `LookupLaws.StatementValue` | src/config_parser.cc:281-283 | the value of a text of white space, sign, digits and a rest, as in `port -80;` and `port 80x;` |
| `LookupLaws.DecimalValue` | src/config_parser.cc:281-283 | the value of a decimal number is the number up to 65535, and -1 above |
| `LookupLaws.NotANumber` | src/config_parser.cc:281-283 | `port x;` gives 0 |
| `LookupLaws.FirstValidIs` | src/config_parser.cc:275-276 | the first valid value of a block, as the comment means it, is that of the first such statement from 0 to 65535 |
| `TextLaws.AtoiIs` | src/config_parser.cc:282 | what atoi makes of any text: of its digits after white space and one sign, 0 without digits |
| `TextLaws.DecimalLaws` | src/request_handler/request_handler_api.cc:62 | decimal text is the text of the tens and a digit, after a minus for a negative number |
| `Text.AtoiDecimal` | src/config_parser.cc:282 | a number written in decimal is the value that the lookup reads |
| `ConfigCredentials.GetCredentials` | src/config_parser.cc:321-343 | the loops over the objects collect the credentials of the tree |
| `ConfigCredentials.FindInUse` | src/config_parser.cc:323-341 | at most one block is in use: that of a `credentials` statement reached through blocks of other statements, with only childless other statements before it on every level; the entries come from there, and there are none without it |
| `ConfigCredentials.UserIff` | src/config_parser.cc:321-343 | (u, p) is in the map if and only if the last entry for u in the block in use is the text u:p |
| `ConfigCredentials.OnlyBlock` | src/config_parser.cc:323-341 | a config's only `credentials` block counts if and only if no child block comes before it on any level; otherwise the map is empty |
| `ConfigCredentials.HiddenByBlock` | src/config_parser.cc:338-340 | `server { } credentials { u:p; }` gives an empty map |
| `ConfigCredentials.HiddenByLocation` | src/config_parser.cc:338-340 | so does a server block with a `location` before `credentials` |
| `ConfigCredentials.UsersHaveNoColon` | src/config_parser.cc:328-330 | no user name has a colon |
| `CredentialLaws.LastEntryWins` | src/config_parser.cc:325-335 | a block gives u the password p if and only if its last statement of one token u:... is u:p |
| `CredentialLaws.DefinedIff` | src/config_parser.cc:323-339 | the source dereferences only what is there if and only if each statement that the search comes to, by index path, has a token, and a block if it is `credentials` |
| `Base64.Decode` | src/session.cc:172-190 | the loop over the table with the wrapping accumulator puts out the bytes of the exact number |
| `Base64.AbsorbAgrees` | src/session.cc:182-188 | one turn keeps: valb in {-8, -6, -4, -2}; 6 bits read per character are 8 per byte put out plus valb + 8; val is the exact number modulo 2^32; the output is the number's top |
| `Base64.BitsConserved` | src/session.cc:178-188 | output times 2^(valb+8) plus the low valb+8 bits of the wrapped val is the exact number read |
| `Base64.LowByte` | src/session.cc:185 | the byte taken from the wrapped, perhaps negative, accumulator is that of the exact number |
| `Base64.RoundTrip` | src/session.cc:172-190 | decoding the encoding of section 4 of RFC 4648 gives back every byte string of every length, padded or not |
| `Base64Laws.AlphabetIs` | src/session.cc:175-177 | the digit d is the d-th character of the text of the source's table |
| `Base64Laws.SextetIff` | src/session.cc:175-182 | a character has the value d if and only if it is the d-th of that text |
| `Base64Laws.DecodingStops` | src/session.cc:181-182 | what comes after the first other character does not matter |
| `Base64Laws.DecodedIs` | src/session.cc:180-189 | any n characters of the alphabet give 6 n / 8 bytes, and left over bits are dropped whatever they are |
| `Base64Laws.WrapIs` | src/session.cc:179-183 | the accumulator is an int of 32 bits, off by a multiple of 2^32 |
| `Base64Laws.VectorFoobar` | src/session.cc:172-190 | a test vector of section 10 of RFC 4648, of full groups |
| `Base64Laws.VectorF` | src/session.cc:172-190 | a test vector with two characters of padding |
| `Base64Laws.VectorFo` | src/session.cc:172-190 | a test vector with one |
| `Base64Laws.VectorFoo` | src/session.cc:172-190 | a test vector of one full group |
| `Base64Laws.BytesIff` | src/session.cc:180 | the characters that the decoder takes are those up to 255 |
| `Session.CarriesIff` | src/session.cc:200-208 | a header carries at most one user and password: those around the first colon of what it decodes to |
| `Session.Session.Authenticate` | src/session.cc:193-217 | true if and only if the header carries a user of the map with its password; only then the time is set |
| `Session.Session.IsSessionExpired` | src/session.cc:219-234 | expired if and only if more whole seconds have passed than allowed; then the time is set and a read is started |
| `Session.Session.HandleReadCallback` | src/session.cc:51-153 | the bytes go to the end of the buffer, the whole buffer is parsed, and the response, the time, and the reads and writes started are those for what the parser makes of it, exceptions of the parser included |
| `Session.Session.HandleRequest` | src/session.cc:85-135 | a complete request is refused if it is late or its header is not good, else it goes to its handler; one write is started, and a read if it is late |
| `Session.Session.HandleWriteCallback` | src/session.cc:155-169 | a write that succeeds is followed by the shutdown of the socket |
| `Session.BasicHeaderCarries` | src/session.cc:193-208 | the header that section 2 of RFC 7617 makes of u and p carries u and p, also when p has colons |
| `SessionLaws.HeaderIs` | src/session.cc:194-217 | the header "Basic " and the encoding of u:p is accepted for a user u with password p |
| `SessionLaws.OtherSchemes` | src/session.cc:194-198 | a header without "Basic " in front is not accepted |
| `SessionLaws.ExpiredIff` | src/session.cc:222-224 | expired means that at least allowed seconds and one have passed, in nanoseconds |
| `SessionLaws.AnswerIff` | src/session.cc:60-135 | each answer with its exact condition: the handler of the request's own target, or "not found" without one, for an authentic request in time; "unauthorized" for any other complete request; the others for what the parser says |
| `SessionLaws.TimeSet` | src/session.cc:212-231 | a late request and an authentic one set the time, and nothing else does |
| `SessionRuns.OneRead` | src/session.cc:51-153 | in every order of events at most one read is under way, and after a read there is one if and only if the request is incomplete or was late |
| `SessionRuns.LastAnswer` | src/session.cc:60-138 | after any answer but the refusal of a late request the session reads nothing |
| `SessionRuns.OneRequest` | src/session.cc:113-135 | a session lets in at most one request |
| `SessionRuns.LastIs` | src/session.cc:219-234 | while a read is under way, the time is that of the latest read that found the request complete, all of them late, or that of the creation |
| `SessionRuns.DispatchedIff` | src/session.cc:85-135 | in every run a request is let in if and only if its header is good and it comes within the allowed time of the creation or of an earlier read that found it complete |
| `SessionLaws.HandledIff` | src/session.cc:85-135 | in every run a request is answered by the handler of its own target if and only if it is authentic and in time, and by "not found" or "unauthorized" exactly otherwise |
| `SessionLaws.WritesConserved` | src/session.cc:39-49 | in every run the answers are as many as the writes under way and ended, and the socket is open until a write succeeds |
| `SessionRuns.SecondChance` | src/session.cc:219-234 | the read after a late refusal decides on the refused request, whatever it brings, and lets it in if and only if its header is good and the read is within the allowed time of the refusal |
| `SessionRuns.AloneIff` | src/session.cc:29-49 | in every run at most one read or write is under way at every moment if and only if no request was late |
| `SessionRuns.WriteAlone` | src/session.cc:29-49 | the same up to any moment: as long as no request was late |
| `SessionRuns.TwoWrites` | src/session.cc:219-234 | after any late request in any run, the next bytes, whatever and whenever they are, make it two writes at once |
| `SessionRuns.RefusedThenLetIn` | src/session.cc:85-135 | a run in which a request is refused as late and let in at the next read while the refusal is being written |
| `SessionRuns.FirstComplete` | src/session.cc:219-234 | the first read that finds the request complete lets it in if and only if its header is good and the session was created within the allowed time |
| `SessionRuns.LateClient` | src/server.cc:26-32 | a client that connects after more than the allowed time since the session was created is refused at first, whatever it sends |
| `EndToEnd.ConfiguredUsersAuthenticate` | src/config_parser.cc:321-343 | a user whose last entry in the block in use is u:p is accepted with p, padded or not, also when p has colons |
| `EndToEnd.AcceptedIff` | src/session.cc:193-217 | a header is accepted if and only if it carries a u and p for which the last entry in the block in use is u:p |
| `EndToEnd.NobodyGetsIn` | src/config_parser.cc:321-343 | without a block in use no header is accepted |
| `EndToEnd.ReprintedLetsIn` | src/config_parser.cc:18-49 | for an accepted text with printable tokens, the config printed and parsed again accepts exactly the headers that carry an entry in use of the first one |
| `ConfigurableUsers.ConfigurableIff` | src/config_parser.cc:321-343 | some accepted text gives u the password p if and only if u has no colon and u:p is a bare word or stands between equal quotes |
| `ConfigurableUsers.OnlyValues` | src/config_parser.cc:93-174 | no text configures anything else |
| `ApiLocations.LocationFindsIff` | src/request_handler_dispatcher.cc:101-110 | a registered API location finds what it stored if and only if it is `/` or its root setting ends with a slash |
| `ApiLocations.LocationReachedIff` | src/request_handler_dispatcher.cc:23-119 | a target goes to the first API location of its path if that is a prefix and no longer path of the config is; the path is taken exactly then |
| `ApiLocations.AskedTarget` | src/request_handler_dispatcher.cc:27-29 | targets of entities and ids have no slash to lose at the end and start with the location's path |
| `ApiLocations.LocationServes` | src/request_handler_dispatcher.cc:101-110 | with a slash in place, the requests for a configured location come to it and every run of them does to a plain map what it says |
| `Dispatcher.RequestHandlerDispatcher.GetRequestHandler` | src/request_handler_dispatcher.cc:23-44 | the loop over the map in any order gives the handler of the longest matching key |
| `Dispatcher.LongestIff` | src/request_handler_dispatcher.cc:34-41 | the key found is the one non-empty prefix of the target at least as long as every other, and there is none if and only if no key matches |
| `Dispatcher.NormaliseSlashes` | src/request_handler_dispatcher.cc:27-29 | slashes at the end of a target make no difference |
| `DispatcherLaws.NormaliseIs` | src/request_handler_dispatcher.cc:27-29 | slashes at the end go, but a path of slashes alone keeps one |
| `DispatcherLaws.HandlerForIff` | src/request_handler_dispatcher.cc:23-44 | a target has the handler h if and only if h is that of the longest non-empty key that begins the target without its last slashes |
| `Dispatcher.RequestHandlerDispatcher.RegisterPath` | src/request_handler_dispatcher.cc:81-119 | a path is registered if and only if it is free and the type is known, with the root of its block |
| `Dispatcher.RequestHandlerDispatcher.RegisterServer` | src/request_handler_dispatcher.cc:53-72 | the loop registers the locations of the first one-token server block and counts the growth of the map |
| `Dispatcher.RequestHandlerDispatcher.InitRequestHandlers` | src/request_handler_dispatcher.cc:49-76 | the first one-token server block and a default are registered, and the count is the growth of the map before the default |
| `Dispatcher.RegisterAllIff` | src/request_handler_dispatcher.cc:59-69 | a path gets the handler of the first location that names it with a known type; a path taken before keeps its own |
| `DispatcherLaws.MadeIs` | src/request_handler_dispatcher.cc:90-116 | each of the five type names makes its own handler, and no other name makes one |
| `DispatcherLaws.RootOf` | src/request_handler_dispatcher.cc:91-107 | the root is the second token of the last two-token `root` statement, and "/" without one |
| `DispatcherLaws.RegisteredIff` | src/request_handler_dispatcher.cc:59-119 | a path has a handler if and only if a location names it with a known type, and it is that of the first such location's type and root |
| `DispatcherLaws.ServerBlockIs` | src/request_handler_dispatcher.cc:53-58 | the block is that of the first statement that is `server` alone |
| `DispatcherLaws.InitialisedIs` | src/request_handler_dispatcher.cc:49-76 | after initialisation the paths are those of the locations and "/", which is "not found" unless a location registers it |
| `DispatcherLaws.UsableIff` | src/request_handler_dispatcher.cc:53-65 | for parsed configs the source dereferences only what is there if and only if the server and its locations have blocks and the locations three tokens |
| `Dispatcher.KeysStayNormal` | src/request_handler_dispatcher.cc:84-85 | no key has a slash at its end, but for `/` |
| `Dispatcher.InitialisedServesAll` | src/request_handler_dispatcher.cc:49-76 | after initialisation every target that starts with a slash has a handler, the same with more slashes after it |
| `Text.SplitLast` | src/request_handler/request_handler_api.cc:49-50 | cutting at the last slash gives back the two sides of it |
| `Text.CastDecimal` | src/request_handler/request_handler_api.cc:73 | the decimal text of an int is read back, and that of a number outside int is refused |
| `TextLaws.LexicalCastIff` | src/request_handler/request_handler_api.cc:72-78 | a text is read as n if and only if it is an optional sign and digits of that value and an int holds it; any other text is refused |
| `TextLaws.DigitIff` | src/request_handler/request_handler_api.cc:54 | the digits are the ten from 0 to 9 |
| `TextLaws.NatOfLaws` | src/request_handler/request_handler_api.cc:73 | a text of digits stands for ten times the number before its last digit, and that digit |
| `FileStorage.PathInjective` | src/api/file_storage.cc:32-36 | the path as text determines entity and id, for all strings and all ints |
| `FileStorage.KeyInjective` | src/api/file_storage.cc:32-36 | for names without slashes the file does as well, though runs of slashes are one slash to the file system |
| `FileStorage.SlashKept` | src/api/file_storage.cc:32-36 | after a base without a slash, a slash before the name leads to a file that no name has |
| `ApiLaws.KeyIs` | src/api/file_storage.cc:32-36 | the file of an entity and an id is that of base, entity, slash and decimal id |
| `ApiLaws.CanonCollapses` | src/api/file_storage.cc:32-36 | two slashes in a path are one |
| `FileStorage.FileStorage.Write` | src/api/file_storage.cc:9-17 | one file gets the data, the others stay |
| `FileStorage.FileStorage.Remove` | src/api/file_storage.cc:27-30 | one file goes, the others stay |
| `CrudHandler.Pigeonhole` | src/api/crud_handler.cc:12-14 | n used ids of an entity take n files, so counting stops, for any entity string |
| `CrudHandler.CRUDHandler.GetNextId` | src/api/crud_handler.cc:8-16 | the counting loop ends at the least unused id, which is at most one more than the number of files |
| `ApiLaws.NextIdIff` | src/api/crud_handler.cc:8-16 | the next id is the least one from 1 up whose file is not there |
| `CrudHandler.CRUDHandler.Create` | src/api/crud_handler.cc:18-24 | the data goes to the file of that id, and the reply names the id |
| `CrudHandler.CRUDHandler.Update` | src/api/crud_handler.cc:30-36 | false and no change if and only if the id is absent; else that file alone is replaced |
| `CrudHandler.CRUDHandler.Delete` | src/api/crud_handler.cc:38-44 | false and no change if and only if the id is absent; else that file alone is removed |
| `ApiHandler.RequestHandlerAPI.RemovePrefix` | src/request_handler/request_handler_api.cc:171-185 | succeeds if and only if the target starts with the prefix, with what follows it |
| `ApiHandler.RequestHandlerAPI.ListIds` | src/request_handler/request_handler_api.cc:54-66 | the loop writes 1, 2, ... up to the last id before the least unused one |
| `ApiHandler.RequestHandlerAPI.HandleRequest` | src/request_handler/request_handler_api.cc:26-169 | status, body and files after any request at all; a successful PUT leaves the body alone |
| `ApiLaws.PostReplies` | src/request_handler/request_handler_api.cc:32-37 | what a POST stores and answers, for any target |
| `ApiLaws.GetReplies` | src/request_handler/request_handler_api.cc:67-91 | what a GET at an id answers, with statuses and texts |
| `ApiLaws.ListReplies` | src/request_handler/request_handler_api.cc:53-66 | any last part that does not start with a digit makes a GET a list |
| `ApiLaws.ListTextLaws` | src/request_handler/request_handler_api.cc:56-65 | the text of a list |
| `ApiLaws.PutReplies` | src/request_handler/request_handler_api.cc:92-125 | what a PUT at an id changes and answers |
| `ApiLaws.DeleteReplies` | src/request_handler/request_handler_api.cc:126-162 | what a DELETE at an id changes and answers |
| `ApiLaws.BadIdRefused` | src/request_handler/request_handler_api.cc:69-151 | with an id that is not a sign or none and digits whose number an int holds, PUT and DELETE change nothing and answer 404 and 400; GET answers 404 if it starts with a digit |
| `ApiLaws.DeleteRefused` | src/request_handler/request_handler_api.cc:144-151 | the refusal of a DELETE with its text |
| `ApiLaws.OtherTargets` | src/request_handler/request_handler_api.cc:43-137 | a target without the prefix is answered with 404 and changes nothing |
| `ApiLaws.OtherVerbs` | src/request_handler/request_handler_api.cc:163-166 | any other verb is answered with 400 and changes nothing |
| `ApiLaws.ChangesIff` | src/request_handler/request_handler_api.cc:92-162 | a DELETE removes a stored file if and only if its target leads there, a PUT whose target leads there writes it, and any other request leaves it alone |
| `ApiLaws.AskIs` | src/request_handler/request_handler_api.cc:26-169 | the requests of a client for the five operations |
| `ApiLaws.CanAskIff` | src/request_handler/request_handler_api.cc:53-87 | the names and ids that the runs below are about |
| `ApiRefinement.RequestRefines` | src/request_handler/request_handler_api.cc:26-169 | every POST, GET, list, PUT and DELETE does to a map from entity and id to data what its operation says, and the reply says the answer |
| `ApiRuns.RunRefines` | src/request_handler/request_handler_api.cc:26-169 | so does every run of them, step by step |
| `ApiRefinement.TextTells` | src/request_handler/request_handler_api.cc:54-66 | status and text of the reply determine the answer: the new id, the length of the list, the data |
| `ApiRuns.Lasts` | src/api/crud_handler.cc:8-24 | in any run no request changes a stored file except a PUT or DELETE whose target leads there; POST never overwrites |
| `ApiRuns.CreatedIsFetched` | src/request_handler/request_handler_api.cc:32-90 | what POST stored is what GET at the id in the reply's text answers, after any requests, well formed or not, but a PUT or DELETE at that id |
| `ApiRuns.NeverFound` | src/request_handler/request_handler_api.cc:32-66 | without a slash at the end of prefix or base, in every run every list is empty and every GET, PUT and DELETE fails, however much was posted |
| `ApiRuns.SlashNeeded` | src/request_handler/request_handler_api.cc:32-51 | a GET finds what was posted if and only if the prefix or the base ends with a slash |
| `ApiLaws.SlashesAgreeIff` | src/request_handler/request_handler_api.cc:34-41 | the condition with the slash written out |
| `ApiIds.IdsBounded` | src/api/crud_handler.cc:8-16 | an id given out is at most one more than the number of live ids of its entity |
| `ApiIds.IdsInOrder` | src/api/crud_handler.cc:8-24 | in any run without a removal, creations give out the ids free at the start, in increasing order and leaving none out |
| `ApiIds.CompleteIff` | src/request_handler/request_handler_api.cc:54-66 | a list of n ids is the set of all live ids if and only if there are n live ids |
| `ApiIds.ListCompleteIff` | src/request_handler/request_handler_api.cc:54-66 | after a run without a removal a list is complete if and only if live ids at the start and creations since are together at least the largest id at the start |
| `ApiIds.RemovalIff` | src/request_handler/request_handler_api.cc:54-66 | after the deletion of one id from a complete set the list is complete if and only if it was the largest |
| `ApiIds.HoleOverHttp` | src/request_handler/request_handler_api.cc:54-66 | POST, POST and DELETE of id 1 leave an empty list although GET of id 2 answers |
| `ApiIds.HoleInList` | src/api/crud_handler.cc:8-51 | the same on the plain map, with ids 1 and 2 given out |

## Left out

- Sockets, the accept loop, signals, logging and tracing: input and output only. Reads and writes of a session are events
  that end in any order; a read under way when the socket is shut down may still bring bytes.
- The HTTP parser: a function from all the bytes of the buffer to malformed, an exception, incomplete, or complete with the
  Authorization header and the target. `SecondChance`, `TwoWrites` and
  `RefusedThenLetIn` also take it that more bytes do not change a complete request.
- The clock: a time in nanoseconds that does not decrease is a parameter.
- The file system beyond a map from paths to contents in which a run of slashes is one slash: directories, `.` and `..`,
  links, permissions and failed writes.
- Opening a config file by name, and a file that cannot be opened.
- The responses of the static, echo, health, sleep and not-found handlers, and the table of MIME types.
- Exceptions in the read callback from anything but the HTTP parser, for instance for want of memory.
- Return codes of the read and write callbacks; after an incomplete read the source returns none.
- The fields of a response that is sent while another is under way, and a body left from an earlier response under a PUT.
- CrudHandler.CRUDHandler.GetNextId: ids are unbounded; the overflow of int after 2^31 - 1 files is not modelled.
- ConfigLookup.GetNumber: a value that does not fit an int, for which `atoi` has no defined result, is taken as the number
  it is; the later narrowing of port and timer to short is not modelled.
- ConfigCredentials.GetCredentials: requires that the statements looked at have a token and that `credentials` has a block;
  without them the source dereferences what is not there. Parsed configs always have the tokens.
- Dispatcher.RequestHandlerDispatcher.InitRequestHandlers: requires that `server` and `location` statements looked at have
  their blocks and the latter three tokens, for the same reason.
- Base64.Decode: requires bytes, which every std::string has; a Dafny string could have larger characters.
- ApiRefinement.RequestRefines: is about entity names that are not empty and have no slash, for lists do not start with a
  digit, and ids that an int holds, for GET not negative; the handler takes a GET whose id has a sign for a list. What it does
  with any other target is in `HandleRequest`.
- ConfigLexer.Stream: a char is a Dafny character; sign and encoding do not matter to the automaton.
