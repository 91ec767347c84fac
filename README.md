# myhtml2 — a verified model of its core

myhtml2 is a small C library that reads HTML into an object tree, queries the tree
with CSS-like selectors and writes it back out. The repository holds two generations.

- **v1** (`MyHtml/`): `HTML_Element` nodes, an `HTML_String` output buffer, an
  `HTML_StrReader` input reader, a parser and a writer.
- **v2** (`myhtml2/` plus the root `myhtml_object.h`): `HtmlObject` nodes with
  `parent`/`prev`/`next`/`firstChild`/`lastChild` links, a seekable string stream,
  a reader, a selector compiler and matcher, and a writer.

This project models both generations in Dafny and proves what each operation computes.

| module (file) | models |
|---|---|
| `Defines` (defines.dfy) | result codes; node types as an ID plus capability bits; `HasFlags` |
| `Chars` (chars.dfy) | ASCII lower-casing; the C-string view of a buffer (everything before the first NUL) |
| `Stream` (stream_string.dfy) | `HtmlStreamString` as a class: buffer array, length, capacity, read position |
| `MyHtmlStream` (myhtml_stream.dfy) | v1 `HTML_String` as a class: buffer array, length, memsize |
| `StrReader` (str_reader.dfy) | v1 `HTML_StrReader` as a class, and `HTML_ParseString` |
| `Attributes` (attributes.dfy) | attribute lists as `seq<Attr>`: find, create-or-update, remove, copy (both generations) |
| `ObjectTree` (object_tree.dfy) | the v2 node tree as an arena class `Dom`. Nodes live in `objs: seq<Obj>` and link by index. A ghost `kids` list states each node's ordered children, and `Valid()` ties every link to it. |
| `ObjectV2` (object_v2.dfy) | the older `myhtml2/myhtml_object.h` layer: its own `HtmlAddObjectChild`, attribute lookup and removal, and text extraction |
| `Document` (document.dfy) | the tree as a value (`Tree`), and `HtmlCopyObject` |
| `Reader` (reader.dfy) | both parsers: one engine with a `Dialect` (V1/V2) parameter. It is specified by the pure state machine `Step`/`Run`/`Parse` and implemented by methods that read the `Stream` class. |
| `Selector` (select.dfy) | the selector compiler, `HtmlIsObjectPatterns` and the recursive first-match search |
| `Writer` (writer.dfy) | the v2 writer: the pure `Serialize`, and methods that append exactly that text to a stream |
| `WriterV1` (writer_v1.dfy) | the v1 writer: the pure `Element`, and methods over `HTML_String` |
| `Elements` (elements.dfy) | the v1 element operations of `MyHtml_methods.h`, on the same arena |

Where the source has a bug, the affected function takes an `Edition` parameter: `AsWritten` behaves as the code does and `Intended` as it evidently should. The methods that model the code use `AsWritten`. The lemmas pin each discrepancy and prove the intended property about `Intended` (see "## Findings").

Strings are `seq<char>`, one `char` per C byte. The tree that the parser, selector and writer see is a value. The tree that the linking operations update is an arena, because those operations rewrite pointers in place.

## Model

| member | source | states |
|---|---|---|
| Defines.CodeValue | myhtml_object.h:17-33 | the numeric value of each result code; only HTML_OK is 0 |
| Defines.TypeValue | MyHtml/MyHtml_defines.h:36-61 | the low nibble of a type value is its ID, so IDs never overlap the flag bits |
| Defines.HasFlags | MyHtml/MyHtml_defines.h:29 | the and-test holds iff every bit of `flags` is set in the type |
| Defines.MissingBit | MyHtml/MyHtml_defines.h:29 | when the and-test fails, some flag bit is missing from the type |
| Defines.HasFlagsUnion | MyHtml/MyHtml_defines.h:29 | testing a union of flags is testing each flag |
| Defines.KindOf | MyHtml/MyHtml_defines.h:52-61 | decoding a byte yields only a kind whose encoding is that byte |
| Defines.KindOfTypeValue | MyHtml/MyHtml_defines.h:52-61 | the eight type values are pairwise distinct: decoding an encoding gives back its kind |
| Defines.Capabilities | MyHtml/MyHtml_defines.h:52-61 | TAG has name, attr, text and child; SINGLE has name and attr; SCRIPT has name, attr and text; DOCUMENT and COMMENT have text only; DOCTYPE and XML have none |
| Chars.LowerChar | myhtml_object.h:122-124 | exactly the upper-case letters change, each shifted by 32 to its lower-case letter |
| Chars.Lowered | myhtml_object.h:141-155 | same length, each byte lower-cased |
| Chars.CopyLowered | myhtml_object.h:141-155 | the copy loop produces the lower-cased string |
| Chars.LoweredIdempotent | myhtml_object.h:141-155 | lower-casing twice is lower-casing once |
| Stream.SignedByte | myhtml_object.h:396-402 | getchar yields a byte as a signed char: −128..127, the byte itself when below 128 |
| Stream.ByteChar | myhtml_object.h:417-427 | putchar stores its int argument truncated to a byte |
| Stream.SignedByteOfByteChar | myhtml_object.h:396-427 | a byte put and got back is the value put, for −128..127 |
| Stream.SeekTarget | myhtml_object.h:446-462 | the position seek leaves: never past the length; an in-range target is taken; a negative one lands at the end; an unknown mode changes nothing |
| Stream.SeekTargetDiffers | myhtml_object.h:446-462 | as written, seek to −1 from the start lands at the end, and SEEK_END adds the move to the position instead of the length (see Findings) |
| Stream.StreamString.CreateBuffer | myhtml_object.h:493-512 | an empty stream at position 0, capacity blockSize, NUL-terminated |
| Stream.StreamString.CreateString | myhtml_object.h:515-532 | holds the string, position 0, capacity length+1 |
| Stream.StreamString.Expand | myhtml_object.h:380-391 | contents kept; nothing reallocated when there is room; afterwards capacity > length + expandSize |
| Stream.StreamString.Getchar | myhtml_object.h:396-402 | EOF at or past the end, else the byte at the position, advancing by one |
| Stream.StreamString.Read | myhtml_object.h:404-412 | copies min(n·size, length − position) bytes from the position and advances by that count |
| Stream.StreamString.Putchar | myhtml_object.h:417-427 | appends one byte, returns c, earlier bytes unchanged |
| Stream.StreamString.Write | myhtml_object.h:429-443 | appends the first n·size bytes of content and returns that count |
| Stream.StreamString.Seek | myhtml_object.h:446-462 | the position becomes `SeekTarget`; returns HTML_OK |
| Stream.StreamString.Tell | myhtml_object.h:464-466 | the read position |
| Stream.StreamString.GetStreamString | myhtml_object.h:540-548 | NUL-terminates the buffer and yields its C string, contents unchanged |
| MyHtmlStream.HtmlString.Create | MyHtml/MyHtml_stream.h:51 | an empty string with memsize m |
| MyHtmlStream.HtmlString.Expand | MyHtml/MyHtml_stream.h:55-65 | contents kept; unchanged when there is room; afterwards memsize > length + expand |
| MyHtmlStream.HtmlString.PutChar | MyHtml/MyHtml_stream.h:68-73 | appends exactly one byte |
| MyHtmlStream.HtmlString.PutCString | MyHtml/MyHtml_stream.h:75-92 | appends all bytes of the string and keeps the buffer NUL-terminated |
| MyHtmlStream.CopyAt | MyHtml/MyHtml_stream.h:89 | the string lands at the write position; the bytes before it and after it are untouched |
| MyHtmlStream.HtmlString.ConvertStringToCString | MyHtml/MyHtml_stream.h:94-98 | NUL at buffer[length], length unchanged; yields the C string |
| StrReader.SeekedTo | MyHtml/MyHtml_parser.h:453-456 | where a seek leaves the size_t cursor: `where` itself when non-negative, else wrapped beyond LONG_MAX |
| StrReader.SeekAgreesOnSet | MyHtml/MyHtml_parser.h:453-456 | for the SEEK_SET seeks into the string that the parser makes, the reader lands where the v2 stream does |
| StrReader.ReadsAgree | MyHtml/MyHtml_parser.h:437-451 | from any position in the string, a read of n bytes copies the same bytes from the reader as from the v2 stream, and the reader adds one NUL after them |
| StrReader.SeekIgnoresMode | MyHtml/MyHtml_parser.h:453-456 | a SEEK_CUR from a nonzero cursor lands elsewhere than a real relative seek |
| StrReader.NegativeSeekIsPastEnd | MyHtml/MyHtml_parser.h:453-456 | a negative seek puts the cursor past any string, so the next get reads EOF |
| StrReader.StrReader.constructor | MyHtml/MyHtml_parser.h:474-477 | the whole string, limit = its length, cursor 0 |
| StrReader.StrReader.GetChar | MyHtml/MyHtml_parser.h:430-435 | −1 once now ≥ limit, else the byte at now, advancing |
| StrReader.StrReader.Read | MyHtml/MyHtml_parser.h:437-451 | copies min(n, limit − now) bytes plus a NUL and advances by the count; a cursor past the end copies nothing |
| StrReader.StrReader.Seek | MyHtml/MyHtml_parser.h:453-456 | the cursor becomes `where` whatever the mode |
| StrReader.StrReader.Position | MyHtml/MyHtml_parser.h:458-460 | the cursor |
| StrReader.ParseString | MyHtml/MyHtml_parser.h:471-488 | NULL gives NULL; otherwise the document the v1 parser builds from the whole string |
| Attributes.Find | myhtml_object.h:1119-1131 | the index of the first attribute whose name is exactly `name`, or none when no attribute has it |
| Attributes.GetValueOrEmpty | myhtml2/myhtml_object.h:921-933 | "" when the name is absent, else the first match's value |
| Attributes.SetValueShape | myhtml_object.h:907-954 | an existing name keeps the count; a new name is appended at the tail; other attributes are untouched |
| Attributes.GetAfterSet | myhtml2/myhtml_object.h:769-816 | after set(k, v), get(k) is v, except that a new attribute with "" stores NULL (the same code is at myhtml_object.h:907-954) |
| Attributes.FindOtherAfterSet | myhtml_object.h:907-954 | setting one name changes neither the position nor the value of any other name |
| Attributes.EmptyValueAsymmetry | myhtml_object.h:907-954 | "" creates a NULL value, but "" set on an existing attribute stays "" |
| Attributes.Remove | myhtml_object.h:1178-1214 | an absent name leaves the list unchanged; otherwise exactly one attribute goes |
| Attributes.RemoveKeepsOrder | myhtml_object.h:1178-1214 | the first match goes and the others keep their order; a later duplicate survives |
| Attributes.RemoveDistinct | myhtml_object.h:1178-1214 | with no duplicate names, the name is gone afterwards |
| Attributes.CopyAttributesDistinct | myhtml_object.h:1236-1242 | copying through create-or-update appends the source attributes in order, with "" values turned into NULL |
| Attributes.SetValueDistinct | myhtml_object.h:907-954 | create-or-update keeps a list's names distinct |
| Attributes.CopyAttributesKeepsDistinct | myhtml_object.h:1236-1242 | the copy loop onto distinct names leaves them distinct for any source list |
| Attributes.GetElementAttribute | MyHtml/MyHtml_methods.h:182-189 | the first attribute whose name equals `attrName` exactly, or NULL |
| Attributes.GetAfterSetElement | MyHtml/MyHtml_methods.h:219-250 | after setting a lower-case name, getting it yields the value set |
| Attributes.SetElementUppercaseAppends | MyHtml/MyHtml_methods.h:219-250 | a name with upper-case letters is stored lower-cased, so setting it twice appends twice |
| Document.Blank | myhtml_object.h:604-618 | a new object has its kind and name, no texts, attributes or children |
| Document.CopyChildren | myhtml_object.h:1244-1251 | children are copied one by one, in order |
| Document.CopyFields | myhtml_object.h:1222-1254 | as written the copy has no type and no name, corrected it has the original's; the same texts, and copies of the children in order |
| Document.CopyIntendedIsIdentity | myhtml_object.h:1225-1254 | corrected, copying a tree with distinct attribute names and no empty values gives back the tree itself |
| Document.CopyIsStripped | myhtml_object.h:1222-1254 | for a tree whose attribute names are distinct at every node, a copy equals an independent definition: strip types and names, normalise attributes |
| Document.StrippedDistinct | myhtml_object.h:1222-1254 | stripping keeps a tree with distinct attribute names distinct |
| Document.CopyDistinct | myhtml_object.h:1222-1254 | a copy never has duplicate attribute names, whatever the original repeats |
| Document.CopySettles | myhtml_object.h:1222-1254 | for every tree, copying a copy of a copy gives the copy of the copy |
| Document.CopyIdempotent | myhtml_object.h:1222-1254 | with no duplicate names, copying a copy changes nothing |
| Document.CopyOfRepeatedName | myhtml_object.h:1222-1254 | a repeated name collapses to one attribute, and a second copy changes it again |
| ObjectTree.IndexOf | myhtml_object.h:823-857 | the first position of a member |
| ObjectTree.InsertedBeforeOrder | myhtml_object.h:823-857 | the object lands immediately before the target, or at the head when the target is NULL; the rest keep their order |
| ObjectTree.InsertedAfterOrder | myhtml_object.h:859-893 | the object lands immediately after the target, or at the tail when the target is NULL; the rest keep their order |
| ObjectTree.AddChildPlacesOnce | myhtml_object.h:813-821 | after detach and append, the child is the new parent's last child and occurs in no other list |
| ObjectTree.LinkedForest | myhtml_object.h:714-893 | consistent links imply that every object is in at most one child list, once |
| ObjectTree.UnlinkedLinked | myhtml_object.h:714-730 | unlinking a child keeps every link consistent, with the child cut from its list |
| ObjectTree.SplicedLinked | myhtml_object.h:823-893 | splicing an object into a list keeps every link consistent, with the object inserted there |
| ObjectTree.AppendWritesSplice | myhtml_object.h:796-811 | the pointer writes of an append are a splice at the list's end |
| ObjectTree.InsertBeforeSplice | myhtml_object.h:823-857 | the pointer writes of insert-before are a splice at the target's position |
| ObjectTree.InsertAfterSplice | myhtml_object.h:859-893 | the pointer writes of insert-after are a splice just past the target |
| ObjectTree.Dom.CreateObject | myhtml_object.h:604-618 | a new object with a lower-cased name, appended as the parent's last child when a parent is given |
| ObjectTree.Dom.ClearObjectRelationship | myhtml_object.h:714-730 | the child leaves its parent's list and has no parent; every other list and all data are unchanged |
| ObjectTree.Dom.LibAddObjectChild | myhtml_object.h:796-811 | an unowned child becomes the parent's last child; the earlier children keep their order |
| ObjectTree.Dom.AddObjectChild | myhtml_object.h:813-821 | NULL in gives NULL and no change; otherwise detach from the old parent, then append as last child |
| ObjectTree.Dom.InsertObjectChildBefore | myhtml_object.h:823-857 | detach, then place immediately before the target (the head when NULL); no data changes |
| ObjectTree.Dom.InsertObjectChildAfter | myhtml_object.h:859-893 | detach, then place immediately after the target (the tail when NULL); no data changes |
| ObjectTree.Dom.SetObjectAttrValue | myhtml_object.h:907-954 | NULL object or name gives HTML_NULL_POINTER and no change; otherwise only this object's attributes change, to create-or-update |
| ObjectTree.Dom.GetObjectAttrValue | myhtml_object.h:1119-1131 | the first match's value, NULL when the name is missing |
| ObjectTree.Dom.RemoveObjectAttribute | myhtml_object.h:1178-1214 | only this object's attributes change, by removing the first match |
| ObjectTree.Dom.CountObjectChildren | myhtml_object.h:1262-1271 | the number of children (the same code is at myhtml2/myhtml_object.h:1056-1065) |
| ObjectTree.Dom.CountObjectAttributes | myhtml_object.h:1273-1282 | the number of attributes (the same code is at myhtml2/myhtml_object.h:1067-1076) |
| ObjectV2.UnlinkBetweenIsUnlinked | myhtml2/myhtml_object.h:726-738 | for a child with both neighbours, the v2 relinking is exactly the general unlink |
| ObjectV2.V2AddLinked | myhtml2/myhtml_object.h:720-755 | the v2 append keeps every link consistent and puts the child last in the new parent |
| ObjectV2.AddObjectChild | myhtml2/myhtml_object.h:720-755 | NULL gives NULL; otherwise detach from the old parent and append as last child (see Left out for the precondition) |
| ObjectV2.AttributeValue | myhtml2/myhtml_object.h:921-933 | NULL name gives NULL; an absent name gives ""; else the first match's value |
| ObjectV2.AttributeValueIntended | myhtml2/myhtml_object.h:171-173 | the lookup with the empty-string guard working: "" gives NULL |
| ObjectV2.EmptyNameAccepted | myhtml2/myhtml_object.h:171-173 | as written, "" passes the guard and finds an empty-named attribute |
| ObjectV2.GetObjectAttributeValue | myhtml2/myhtml_object.h:921-933 | NULL object gives NULL; otherwise `AttributeValue` |
| ObjectV2.RemoveObjectAttribute | myhtml2/myhtml_object.h:978-1008 | HTML_OK after removing the first match; HTML_ITEM_NOT_FOUND and no change when absent; HTML_NULL_POINTER for NULLs |
| ObjectV2.Then | myhtml2/myhtml_object.h:844-895 | prefixing output keeps the code |
| ObjectV2.TextCode | myhtml2/myhtml_object.h:862-868 | text extraction fails with HTML_OUT_OF_MEMORY exactly when a `br` child is met, because putchar's success is non-zero |
| ObjectV2.ChildrenCode | myhtml2/myhtml_object.h:844-895 | a child list fails exactly when one of its children holds a `br` |
| ObjectV2.TextCodeIntended | myhtml2/myhtml_object.h:862-868 | corrected, text extraction answers HTML_OK for every tree |
| ObjectV2.BrStopsText | myhtml2/myhtml_object.h:862-868 | `<br><p>x</p>` gives "\n" and HTML_OUT_OF_MEMORY as written, "\nx" and HTML_OK corrected |
| ObjectV2.SkippedChildInvisible | myhtml2/myhtml_object.h:857-859 | a comment, doctype or script child inserted anywhere adds no text |
| ObjectV2.CommentChildInvisible | myhtml2/myhtml_object.h:857-859 | adding a comment child to an object leaves its text unchanged |
| ObjectV2.ChildrenTextAppend | myhtml2/myhtml_object.h:844-895 | the text of a concatenated child list is the concatenation, up to the first failure |
| ObjectV2.LibGetObjectText | myhtml2/myhtml_object.h:844-895 | appends exactly `TextOf(t, AsWritten).out` to the stream and returns its code |
| ObjectV2.GetObjectText | myhtml2/myhtml_object.h:897-912 | HTML_NULL_POINTER for NULLs; HTML_OK and no output for types other than DOCUMENT/TAG; else the text |
| ObjectV2.GetObjectTextEx | myhtml_object.h:1046-1061 | HTML_NULL_POINTER for NULLs; HTML_OK and no output for types other than DOCUMENT/TAG; the writability gate; else exactly the text appended and its code |
| ObjectV2.TextExRefusesWritable | myhtml_object.h:1056-1058 | as written, a DOCUMENT or TAG with a writable stream gets HTML_STREAM_NOT_WRITEABLE, and one with an unwritable stream passes the gate |
| ObjectV2.TextExIntendedWrites | myhtml_object.h:1046-1061 | corrected, a DOCUMENT or TAG passes the gate exactly when the stream is writable, and is refused exactly when it is not |
| Reader.IsStringIn | myhtml2/myhtml_reader.h:16-29 | true iff the name is one of the list (also `CompareStrings`, MyHtml/MyHtml_parser.h:34-47) |
| Reader.SingleNames | myhtml2/myhtml_reader.h:33-41 | "hr" is a single-tag name only in v2 |
| Reader.DetectObjectType | myhtml2/myhtml_reader.h:33-41 | SINGLE exactly for the single-tag names, SCRIPT for script/style, TAG otherwise |
| Reader.DetectDialects | MyHtml/MyHtml_parser.h:55-63 | v1 and v2 classify every name alike except "hr" |
| Reader.HexToInt | myhtml2/myhtml_reader.h:43-54 | digits give 0-9, letters of either case give 10 onwards, non-alphanumerics give 0 |
| Reader.HexRoundTrip | myhtml2/myhtml_reader.h:89-94 | two hex digits of either case decode back to the byte hi·16 + lo |
| Reader.RunEnd | myhtml2/myhtml_reader.h:192-195 | the end of the longest run of one character class |
| Reader.Unescape | myhtml2/myhtml_reader.h:77-98 | any escape other than `\a \r \n \t \x` yields a backslash |
| Reader.Formatted | myhtml2/myhtml_reader.h:58-100 | a scan never goes backwards or past the input |
| Reader.FormattedPlain | myhtml2/myhtml_reader.h:58-100 | a body without backslashes or the quote reads back as itself and stops just past the quote |
| Reader.FormattedOtherEscape | myhtml2/myhtml_reader.h:95-96 | another escaped character yields a backslash and is consumed without ending the string |
| Reader.FormattedNamedEscape | myhtml2/myhtml_reader.h:77-88 | `\a \r \n \t` decode to BEL, CR, LF and tab |
| Reader.FormattedEof | myhtml2/myhtml_reader.h:58-100 | at EOF the text read so far is returned |
| Reader.ReadEscape | myhtml2/myhtml_reader.h:73-98 | reads one escape from the stream as `Escape` decodes it |
| Reader.ParseFormattedString | myhtml2/myhtml_reader.h:58-100 | returns the C string of the decoded text and leaves the stream just past it |
| Reader.OneAttributeLowered | myhtml2/myhtml_reader.h:139-144 | attribute names are stored lower-cased |
| Reader.ScanAttributesExtends | myhtml2/myhtml_reader.h:104-172 | attributes are appended in source order after those already read |
| Reader.ScanAttributesLowered | myhtml2/myhtml_reader.h:104-172 | every attribute name read is lower-case |
| Reader.SelfCloseV2 | myhtml2/myhtml_reader.h:113-119 | in v2, "/>" ends the list and reports −1 |
| Reader.SelfCloseV1 | MyHtml/MyHtml_parser.h:119-180 | in v1 there is no "/>" case: the '/' becomes an empty-named attribute |
| Reader.DuplicatesKept | myhtml2/myhtml_reader.h:104-172 | ` a a>` yields two attributes named a, both with NULL values |
| Reader.ReadAttribute | myhtml2/myhtml_reader.h:139-170 | reads one attribute from the stream as `OneAttribute` does |
| Reader.ParseAttributes | myhtml2/myhtml_reader.h:104-172 | the loop returns what `ScanAttributes` specifies: the attributes, the lookahead and the position |
| Reader.AddChild | myhtml2/myhtml_reader.h:309-326 | the new node becomes the last child of the current node; the rest of the open chain is unchanged |
| Reader.Pop | myhtml2/myhtml_reader.h:303 | closing the current node attaches it to its parent |
| Reader.BuildPopTo | myhtml2/myhtml_reader.h:303 | popping open nodes never changes the document that the chain stands for |
| Reader.Walk | myhtml2/myhtml_reader.h:290-293 | the nearest open node with the name, searching upward below the document; none if there is no such node |
| Reader.PutTextPlace | myhtml2/myhtml_reader.h:362-402 | text goes to the last child's afterText when there is a last child, else to the current node's innerText |
| Reader.BangComment | myhtml2/myhtml_reader.h:219-241 | a comment adds a COMMENT child with the lower-cased body without "-->"; EOF inside it ends the parse |
| Reader.BangDoctype | myhtml2/myhtml_reader.h:244-265 | a doctype adds a DOCTYPE child with the lower-cased text up to '>' |
| Reader.BangText | myhtml2/myhtml_reader.h:267-269 | any other `<!` is taken as text |
| Reader.CloseOf | myhtml2/myhtml_reader.h:332-357 | the literal `</name>` that ends a script |
| Reader.StepAtEnd | myhtml2/myhtml_reader.h:197-200 | at EOF the parse finishes with the tree so far |
| Reader.SpacesBeforeTag | myhtml2/myhtml_reader.h:192-195 | blanks before a '<' are dropped |
| Reader.StepText | myhtml2/myhtml_reader.h:203-206 | any other text span, up to the next '<' or EOF, is put as text |
| Reader.ParseRoot | myhtml2/myhtml_reader.h:179-406 | a parse that completes yields a DOCUMENT without a name |
| Reader.ParseBlank | myhtml2/myhtml_reader.h:179-406 | blank input yields an empty document |
| Reader.ReadComment | myhtml2/myhtml_reader.h:219-241 | the stream loop reads the comment as `CommentText` specifies |
| Reader.ReadCommentNode | myhtml2/myhtml_reader.h:218-241 | adds a comment child holding what `CommentText` finds, or at EOF ends with the document as it stands |
| Reader.ReadScriptText | myhtml2/myhtml_reader.h:332-357 | the verbatim bytes up to the literal `</name>`, that sequence excluded |
| Reader.ReadDoctype | myhtml2/myhtml_reader.h:244-265 | the lower-cased text up to '>', leaving the stream past it |
| Reader.ReadDoctypeNode | myhtml2/myhtml_reader.h:248-265 | adds a doctype child holding the lowered text up to '>' and resumes past it |
| Reader.FindOpenObject | myhtml2/myhtml_reader.h:290-293 | the parent walk finds what `Walk` specifies |
| Reader.ReadCloseTag | myhtml2/myhtml_reader.h:272-305 | pops to the parent of the nearest open node with that name; with none, the tree is unchanged |
| Reader.ReadOpenTag | myhtml2/myhtml_reader.h:309-358 | appends the tag as the current node's last child; a SINGLE pops at once; a SCRIPT takes its text and pops |
| Reader.InsertTextAt | myhtml2/myhtml_reader.h:362-402 | the mark-and-seek-back text capture does what `InsertText` specifies |
| Reader.ReadTextUntil | myhtml2/myhtml_reader.h:386-394 | reads from the mark past every byte already consumed, then up to the first `<` or EOF; buffers exactly those bytes |
| Reader.ReadBang | myhtml2/myhtml_reader.h:214-270 | the `<!` branch does what `Bang` specifies |
| Reader.ReadBangWord | myhtml2/myhtml_reader.h:244-269 | a `<!` that is not a comment becomes what `Bang` specifies: a doctype, or text from the mark |
| Reader.Round | myhtml2/myhtml_reader.h:187-206 | one turn of the main loop does what `Step` specifies |
| Reader.LibReadObjectFromStream | myhtml2/myhtml_reader.h:179-406 | the parse loop returns the document that `Run` specifies |
| Reader.ReadObjectFromStream | myhtml2/myhtml_reader.h:411-419 | NULL stream gives NULL; otherwise the v2 parse from the stream's position |
| Reader.ReadObjectFromString | myhtml2/myhtml_reader.h:421-430 | NULL gives NULL; otherwise the v2 parse of the whole string |
| Selector.SkipSpaces | myhtml2/myhtml_select.h:43-49 | skips exactly the blanks |
| Selector.ReadSegment | myhtml2/myhtml_select.h:65-124 | each segment consumes at least one character of a non-blank pattern |
| Selector.ReadPattern | myhtml2/myhtml_select.h:65-124 | the segment loop reads what `ReadSegment` specifies, as written |
| Selector.SkipIndexChars | myhtml2/myhtml_select.h:70 | stops at the first character after `[` that is not a space, digit, `-` or `]`, as `SkipIndex` says |
| Selector.CreateSelect | myhtml2/myhtml_select.h:33-136 | the compiled chain is `Compile(pattern, AsWritten)` |
| Selector.PlainPatternCompiles | myhtml2/myhtml_select.h:33-136 | a pattern of plain words gives one select per word, left to right, each named by the lower-cased word without its first character |
| Selector.TitleLosesItsT | myhtml2/myhtml_select.h:90-93 | "title" compiles to the name "itle"; corrected it is "title" |
| Selector.IndexedPattern | myhtml2/myhtml_select.h:67-73 | `ul[-2]` reads the signed index −2 and ends the segment |
| Selector.FieldRun | myhtml2/myhtml_select.h:94-110 | once a field is chosen, a run of plain characters is stored lowered, in order, and reading goes on after it |
| Selector.NameWord | myhtml2/myhtml_select.h:89-92 | a word read with no field chosen stores `NameOf` the word as the name: lowered, and as written without its first character |
| Selector.FieldWord | myhtml2/myhtml_select.h:75-88 | `.` or `#` commits the text so far to its field and switches to `_class` or `_id`, which then holds the next word lowered |
| Selector.DottedSegment | myhtml2/myhtml_select.h:65-124 | for all plain words w, c and i, the segment `w.c#i` makes the select with name `NameOf(w)`, class `c` lowered, id `i` lowered, index 0, and ends after i; alone it compiles to that one select |
| Selector.IndexSegment | myhtml2/myhtml_select.h:66-72 | for every plain word w and decimal literal with an optional minus, `w[n]` makes the select with name `NameOf(w)` and index n, and the segment ends after the `]`; alone it compiles to that one select |
| Selector.ScanIndexAt | myhtml2/myhtml_select.h:68 | sscanf("%d") reads an optional minus and the digits as their signed decimal value |
| Selector.OneSegmentCompiles | myhtml2/myhtml_select.h:41-134 | a pattern that is one segment compiles to the chain of that segment's select |
| Selector.CompileStored | myhtml2/myhtml_select.h:110 | every stored name, class and id is lower-case |
| Selector.SameText | myhtml2/myhtml_select.h:154-166 | strcmp against a possibly missing field |
| Selector.Matches | myhtml2/myhtml_select.h:154-166 | true exactly when the object fits the select's name, class and index test |
| Selector.IdNeverConsulted | myhtml2/myhtml_select.h:161 | as written, the id of a select never changes the outcome |
| Selector.ClassTestedAgainstId | myhtml2/myhtml_select.h:161 | as written, `.a` rejects an object with class a and id b, and `#b` accepts it; corrected, the opposite |
| Selector.Within | myhtml2/myhtml_select.h:173-250 | a result found in a child is that child's index followed by the path inside it |
| Selector.Position | myhtml2/myhtml_select.h:181-192 | a forward or backward scan visits a valid child |
| Selector.LibFindObject | myhtml2/myhtml_select.h:173-250 | the recursive search with its signed counter returns `Search(…, AsWritten)` |
| Selector.SearchSound | myhtml2/myhtml_select.h:229-246 | a found path leads to an object that matches the last select |
| Selector.FlatIndex | myhtml2/myhtml_select.h:181-192 | among flat children, index x ≥ 0 is the x-th match from the front and x < 0 the −x-th from the back |
| Selector.HitsInSound | myhtml2/myhtml_select.h:229-230 | every position listed as a hit holds a TAG, SINGLE or SCRIPT child that fits the select |
| Selector.HitsInComplete | myhtml2/myhtml_select.h:229-230 | every such child in the range is listed |
| Selector.HitsInIncreasing | myhtml2/myhtml_select.h:196 | the hits are listed in child order, so the x-th entry is the x-th matching child |
| Selector.IndexCounts | myhtml2/myhtml_select.h:181-238 | on children that are tested without NULL and have nothing to search inside, index x ≥ 0 finds the x-th matching child from the first, x < 0 the −x-th from the last, and an index past either end finds nothing; non-matching children do not move the counter |
| Selector.SearchComplete | myhtml2/myhtml_select.h:229-246 | completeness: for a one-segment select with index 0 or −1, an answer that lies below the object along TAG and DOCUMENT objects means the search does not come back empty |
| Selector.LocateComplete | myhtml2/myhtml_select.h:263-271 | a one-segment pattern for the first or last match finds something whenever such an answer exists |
| Selector.IndexIsPerParent | myhtml2/myhtml_select.h:181-192 | the counter is per parent: `p[1]` finds nothing when each of two divs has one p |
| Selector.FindObject | myhtml2/myhtml_select.h:263-271 | compiles the pattern and searches, as `Locate(…, AsWritten)` |
| Selector.LocateSound | myhtml2/myhtml_select.h:263-271 | whatever is found matches the pattern's last segment |
| Selector.BlankPatternCrashes | myhtml2/myhtml_select.h:263-271 | as written, a blank pattern compiles to NULL, which the search dereferences |
| Selector.BlankPatternFindsNothing | myhtml2/myhtml_select.h:263-271 | corrected, a blank pattern finds nothing |
| Writer.EscapeChar | myhtml2/myhtml_writer.h:10-45 | the seven special bytes become two bytes starting with a backslash; others are kept |
| Writer.EscapeText | myhtml2/myhtml_writer.h:10-45 | escaping at most doubles the length |
| Writer.Quoted | myhtml2/myhtml_writer.h:10-45 | the escaped value between two double quotes |
| Writer.SerializeChildrenAppend | myhtml2/myhtml_writer.h:112-114 | children are written in order: writing a concatenation is concatenating the writes |
| Writer.CommentIgnoresRest | myhtml2/myhtml_writer.h:70-78 | a comment writes `<!--text-->` and nothing of its afterText, attributes or children |
| Writer.SingleDropsClose | myhtml2/myhtml_writer.h:117-121 | a tag writes what the SINGLE with the same fields writes, plus `</name>` and its afterText |
| Writer.CopyWritesNone | myhtml2/myhtml_writer.h:97-105 | a copied object has no name and is written as `<(none)` |
| Writer.IntendedRoundTrip | myhtml2/myhtml_writer.h:10-45 | corrected, the reader decodes every quoted ASCII value back to itself |
| Writer.AsWrittenRoundTrip | myhtml2/myhtml_writer.h:10-45 | as written, the round trip holds for values without quotes or backslashes |
| Writer.QuoteReadsAsBackslash | myhtml2/myhtml_writer.h:20-24 | `"` is written as `\"` and read back as a lone backslash; `'` likewise |
| Writer.BackslashWritesNul | myhtml2/myhtml_writer.h:17-19 | a backslash is written as a backslash and a NUL |
| Writer.DoctypeWritesNul | myhtml2/myhtml_writer.h:79-87 | a doctype writes a NUL after `<!DOCTYPE `, so its C string ends there |
| Writer.DoctypeCutsString | myhtml2/myhtml_writer.h:179-190 | the string returned for a doctype is `<!DOCTYPE ` alone |
| Writer.IntendedIsCString | myhtml2/myhtml_writer.h:66-129 | corrected, the output of a NUL-free tree contains no NUL |
| Writer.IntendedStringIsWhole | myhtml2/myhtml_writer.h:179-190 | corrected, the C string returned is the whole output |
| Writer.WriteFormattedString | myhtml2/myhtml_writer.h:10-45 | appends exactly `Quoted(v)`; HTML_OK |
| Writer.WriteAttributes | myhtml2/myhtml_writer.h:50-63 | appends ` name` and, for a non-NULL value, `="…"`, per attribute in order |
| Writer.WriteComment | myhtml2/myhtml_writer.h:70-78 | appends the comment's serialisation |
| Writer.WriteDoctype | myhtml2/myhtml_writer.h:79-87 | appends the doctype's serialisation, NUL included |
| Writer.WriteOpenTag | myhtml2/myhtml_writer.h:97-105 | appends `<name attrs>` |
| Writer.ObjectName | myhtml2/myhtml_object.h:824-836 | NONE, DOCUMENT, DOCTYPE and COMMENT, or a missing name, give a parenthesised placeholder; any other kind gives its own name |
| Writer.GetObjectName | myhtml2/myhtml_object.h:822-837 | a NULL object gives `(null pointer)`; otherwise as `Writer.ObjectName` |
| Writer.UnnamedKindsDistinct | myhtml2/myhtml_object.h:826-833 | the placeholders of the four unnamed kinds are pairwise different, so the name tells those kinds apart |
| Writer.WriteCloseTag | myhtml2/myhtml_writer.h:117-121 | appends `</name>` unless SINGLE |
| Writer.WriteChildren | myhtml2/myhtml_writer.h:112-114 | appends the children's serialisations in order |
| Writer.LibWriteObject | myhtml2/myhtml_writer.h:66-129 | appends exactly `Serialize(t)`; HTML_OK |
| Writer.WriteObjectToStream | myhtml2/myhtml_writer.h:145-150 | HTML_NULL_POINTER for a NULL object or stream, else HTML_OK after appending the serialisation |
| Writer.WriteObjectToString | myhtml2/myhtml_writer.h:179-190 | NULL for NULL; otherwise the C string of the serialisation |
| WriterV1.Converts | MyHtml/MyHtml_writer.h:15-24 | the table has an entry exactly for the seven special bytes, each a backslash pair, all below 93 |
| WriterV1.EscapeByte | MyHtml/MyHtml_writer.h:37-49 | a byte escapes as in the corrected v2 writer |
| WriterV1.EscapeValue | MyHtml/MyHtml_writer.h:37-49 | a value escapes as in the corrected v2 writer |
| WriterV1.AttributeText | MyHtml/MyHtml_writer.h:28-51 | an attribute is written as in the corrected v2 writer |
| WriterV1.AttributesText | MyHtml/MyHtml_writer.h:28-51 | attributes are written in list order, as in the corrected v2 writer |
| WriterV1.SingleWritesNoClose | MyHtml/MyHtml_writer.h:87-115 | SINGLE writes `<name attrs>` and its interval, ignoring text and children |
| WriterV1.ScriptWritesNoChildren | MyHtml/MyHtml_writer.h:87-115 | SCRIPT writes text and a close tag but no children |
| WriterV1.TagWritesAll | MyHtml/MyHtml_writer.h:87-120 | TAG writes open tag, text, children, close tag and interval |
| WriterV1.NoTypeWritesBareTag | MyHtml/MyHtml_writer.h:87-120 | an object with no flags writes `<name>` and its interval only |
| WriterV1.UnnamedDropInterval | MyHtml/MyHtml_writer.h:58-83 | comment, doctype and XML depend only on kind and text; XML writes the placeholder |
| WriterV1.ChildrenAppend | MyHtml/MyHtml_writer.h:78-83 | children are written in order |
| WriterV1.SameAsCorrectedV2 | MyHtml/MyHtml_writer.h:57-122 | on trees of the kinds both share, v1 writes exactly what the corrected v2 writer writes |
| WriterV1.RoundTrip | MyHtml/MyHtml_writer.h:37-49 | the reader decodes every v1-escaped ASCII value back to itself except quotes |
| WriterV1.QuoteReadsAsBackslash | MyHtml/MyHtml_writer.h:15-24 | `"` and `'` are written as backslash pairs that the reader turns into a lone backslash |
| WriterV1.WholeOutput | MyHtml/MyHtml_writer.h:130-148 | the output has no NUL, so the returned C string is all of it |
| WriterV1.WriteAttributesToStream | MyHtml/MyHtml_writer.h:13-53 | appends exactly the attributes' text; returns 0 |
| WriterV1.WriteElementToStream | MyHtml/MyHtml_writer.h:57-122 | appends exactly `Element(t)`; −1 for XML, else 0 |
| WriterV1.WriteContent | MyHtml/MyHtml_writer.h:100-109 | appends the text unless NULL, then the children's output when the type has HAS_CHILD |
| WriterV1.WriteElementToString | MyHtml/MyHtml_writer.h:130-148 | NULL for NULL; otherwise the serialisation, with *lpSize its length |
| Elements.CopyString | MyHtml/MyHtml_methods.h:36-47 | NULL for NULL, else a byte-equal copy |
| Elements.CopyLoweredString | MyHtml/MyHtml_methods.h:15-33 | NULL for NULL, else the lower-cased copy |
| Elements.GetElementTagName | MyHtml/MyHtml_methods.h:168-170 | the name when there is one; "" exactly when the name is NULL or empty |
| Elements.GetElementString | MyHtml/MyHtml_methods.h:172-174 | the text when there is one; "" exactly when the text is NULL or empty |
| Elements.GetElementInterval | MyHtml/MyHtml_methods.h:176-178 | the text after the element when there is one; "" exactly when it is NULL or empty; a new element reads "" and the name and text setters leave it as it was |
| Elements.CreateDocument | MyHtml/MyHtml_methods.h:58-61 | a new, unowned DOCUMENT with nothing in it; other elements unchanged |
| Elements.CreateTag | MyHtml/MyHtml_methods.h:63-71 | a new TAG with the lower-cased name ("" when NULL) and the text when given |
| Elements.CreateSingle | MyHtml/MyHtml_methods.h:73-77 | as written the new element is a TAG, not a SINGLE |
| Elements.CreateSingleWritesCloseTag | MyHtml/MyHtml_methods.h:73-77 | that TAG is written with a close tag, which a SINGLE is not |
| Elements.CreateComment | MyHtml/MyHtml_methods.h:79-83 | a new COMMENT with the given text |
| Elements.SetElementTagName | MyHtml/MyHtml_methods.h:195-204 | the name becomes the lower-cased new name (NULL stays NULL); nothing else changes |
| Elements.SetElementString | MyHtml/MyHtml_methods.h:206-215 | the text becomes the new text; the getter then returns it, or "" |
| Elements.SetElementAttribute | MyHtml/MyHtml_methods.h:219-250 | only this element's attributes change: an exact match is updated, else a lower-cased name is appended |
| Elements.RemoveElementAttribute | MyHtml/MyHtml_methods.h:280-304 | only this element's attributes change, by removing the first match |
| Elements.AddElementChild | MyHtml/MyHtml_methods.h:256-272 | the child becomes the last child with its owner set; the earlier children keep their order |
| Elements.MoveBreaksOldOwner | MyHtml/MyHtml_methods.h:256-272 | adding an owned child without detaching it leaves links that no child lists satisfy |

## Left out

- Freeing memory: the `Destroy*` functions, `HtmlDestroySelect` and `HtmlClearObjectChildren`. The model has no deallocation. The unlink inside `HtmlDestroyObject` and `HTML_DestroyElement` is not modelled.
- Allocation failure. Every allocation is assumed to succeed, so no member returns HTML_OUT_OF_MEMORY because of malloc.
- Files, the network, libcurl, stderr diagnostics and `HtmlPrintObjectInfo`. This covers `HtmlCreateStreamFile*`, `HtmlReadObjectFromFile*`, `HtmlReadObjectFromCURL`, `HtmlWriteObjectToFile*`, `HTML_ParseFile*` and `HTML_WriteElementToFile*`.
- myhtml2/myhtml.h and myhtml2/myhtml_search.h are not part of this model. The first is a superseded snapshot whose null guards are inverted; the second holds only empty stubs. The writer (myhtml2/myhtml_writer.h:4-6) includes that snapshot only when `_MYHTML_H_` is undefined. It is read here against the iterator and accessors of myhtml2/myhtml_object.h, where `HtmlGetObjectName` and `HtmlGetObjectInnerText` (lines 822 and 839) are defined and `HtmlBeginObject` (line 290) makes the first `HtmlNextObject` call yield the first child. The snapshot's `HtmlBeginObject` (myhtml2/myhtml.h:193-199) starts `now` at the first child, so a children loop compiled against it would skip each node's first child.
- `HtmlSelectObject` always returns an empty array, so there is nothing to model.
- `HtmlGetObjectText` in myhtml_object.h: it writes the object's name, a NUL and the text into a new buffer, frees the old name, makes the buffer the object's name and returns a pointer into it. The model has no shared buffers, so it cannot state that the result and the name share memory. The text it holds is `ObjectV2.TextOf`, which `ObjectV2.GetObjectTextEx` appends.
- `HtmlCreateDocumentTemplate` does not compile: it calls an undefined function with the wrong number of arguments.
- Iterators (`HtmlForeach*`, `HTML_Foreach*`) are sequences in the model.
- The getter and setter macros of myhtml2/myhtml_object.h and the field getters (`HtmlGetObjectTypeString`, `HtmlGetObjectAfterText`, `HtmlGetObjectFirstChild` and the like): each reads or writes one field.
- Bytes outside 1..127 in parser input and attribute values. Bytes of 128 and above read as negative ints, which index tables out of range and are undefined for `isspace`/`isalnum`.
- Reader.LibReadObjectFromStream: assumes that the bytes of the v2 reader's `malloc(24)` buffer (myhtml2/myhtml_reader.h:209) that `read` does not write are zero. `strcmp(buffer1.buffer, "--")` at line 218 reads `buffer[2]` even after a full two-byte read, so every `<!--` is recognised as a comment only under this assumption; the other `memcmp`/`strcmp` tests likewise compare only what was read.
- Reader.ReadObjectFromString: requires that the parse be defined (`Parse(s, V2).Parsed?`). An unterminated script shorter than its close tag underflows a size_t, so the behaviour is undefined. The same precondition applies to Reader.LibReadObjectFromStream, Reader.ReadObjectFromStream and StrReader.ParseString.
- StrReader.StrReader.Read: requires that the cursor be at most LONG_MAX+1 past the limit; the signed difference of a cursor further past it would wrap around.
- Stream.StreamString.CreateString: keeps its own copy of the string. Both headers (myhtml_object.h:515-532, myhtml2/myhtml_object.h:514-526) adopt the caller's buffer as the stream's storage, so later writes realloc and overwrite the caller's memory and destroying the stream frees it. The model has no aliasing between the stream and the caller.
- ObjectV2.LibGetObjectText: requires `TextReady`, that every child which is not a COMMENT, DOCTYPE or SCRIPT have a name. The code passes such a child's name to `strcmp` without a NULL test (myhtml2/myhtml_object.h:862 and 869; the same code at myhtml_object.h:984-1035), which is undefined for a NULL name. The same precondition applies to ObjectV2.GetObjectText and ObjectV2.GetObjectTextEx.
- Selector.LibFindObject: "an existing match is found" is proved for one-segment selects only. SearchComplete and LocateComplete cover index 0 or −1 in any tree, and IndexCounts covers any index among children with nothing to search inside. For chains of several segments, and for other indexes with nested children, only soundness (SearchSound) is proved. There the counter is per parent, a match that is not the index-th is not searched inside, and a non-matching TAG is searched before its later siblings. So which match is found has no simpler statement than the loop itself.
- Selector.ScanInt: the index is an unbounded integer. The code reads it with `sscanf("%d")` into an `int`, which is undefined for a literal outside the `int` range; the model does not bound it.
- ObjectV2.AddObjectChild: requires that a child which already has a parent also have both a previous and a next sibling, because lines 727-728 dereference both unconditionally.
- Elements.AddElementChild: requires an unowned child. Adding an owned child corrupts the old owner's list, which Elements.MoveBreaksOldOwner pins.
- WriterV1.Element: requires every named kind to have a name and every attribute value to be ASCII (see the byte range above).
- ObjectTree.Dom.InsertObjectChildBefore: requires the target to be a child of the parent other than the object. With a NULL target, the object must not already be the first child, or the code links it to itself. The code checks neither.
- ObjectTree.Dom.InsertObjectChildAfter: requires the target to be a child of the parent other than the object. With a NULL target, the object must not already be the last child, or the code links it to itself. The code checks neither.
- The attribute lists of each node are sequences; their own prev/next links are not modelled separately.

## Findings

| source | as written | input that shows it | evidently intended | confidence | as-written member | corrected member |
|---|---|---|---|---|---|---|
| myhtml2/myhtml_select.h:90-93 | the first name character jumps to SetupWrite without being stored | pattern `title` compiles to name `itle` | store the whole name | not executed | Selector.TitleLosesItsT | Selector.PlainPatternCompiles |
| myhtml2/myhtml_select.h:161 | the `_class` test reads the id attribute, and `_id` is never tested | `.a` against `class="a" id="b"` is rejected and `#b` is accepted | test class against class and id against id | not executed | Selector.IdNeverConsulted | Selector.ClassTestedAgainstId |
| myhtml2/myhtml_writer.h:20-24 | the writer emits `\"` and `\'`, which the reader decodes as a lone backslash | value `"` is written as `"\""` and read back as `\` | every written value reads back as itself | not executed | Writer.QuoteReadsAsBackslash | Writer.IntendedRoundTrip |
| MyHtml/MyHtml_writer.h:15-24 | the v1 table has the same escapes, which its reader does not undo | value `'` is read back as `\` | every written value reads back as itself | not executed | WriterV1.QuoteReadsAsBackslash | Writer.IntendedRoundTrip |
| myhtml2/myhtml_writer.h:17-19 | writes 2 bytes of the 1-character literal "\\": a backslash and a NUL | value `\` is written as `"\` + NUL + `"` | write a backslash pair | not executed | Writer.BackslashWritesNul | Writer.IntendedIsCString |
| myhtml2/myhtml_writer.h:79-87 | writes 11 bytes of the 10-character literal `<!DOCTYPE `, a NUL included | any doctype: the returned string stops at `<!DOCTYPE ` | write the 10 characters | not executed | Writer.DoctypeCutsString | Writer.IntendedStringIsWhole |
| myhtml_object.h:446-462 | a negative SEEK_SET lands at the end, and SEEK_END adds the move to the position | from position 3 of 10: seek(−1, SET) gives 10 and seek(0, END) gives 3 | clamp to 0; SEEK_END counts from the length | not executed | Stream.SeekTargetDiffers | Stream.SeekTargetIntended |
| myhtml2/myhtml_object.h:171-173 | the empty-string guard tests `str == NULL && str[0] == 0`, so "" passes | `HtmlGetObjectAttributeValue(o, "")` finds an empty-named attribute | reject "" like NULL | not executed | ObjectV2.EmptyNameAccepted | ObjectV2.AttributeValueIntended |
| myhtml2/myhtml_select.h:263-271 | "" or a blank pattern compiles to NULL, which the search dereferences | `HtmlFindObject(doc, " ")` | find nothing | not executed | Selector.BlankPatternCrashes | Selector.BlankPatternFindsNothing |
| MyHtml/MyHtml_methods.h:73-77 | `HTML_CreateSingle` creates an HTML_TAG | `HTML_CreateSingle("br")` is written `<br></br>` | an HTML_SINGLE, written `<br>` | not executed | Elements.CreateSingleWritesCloseTag | Elements.CreateSingle |
| MyHtml/MyHtml_methods.h:256-272 | `HTML_AddElementChild` does not detach the child from its previous owner | move child c of a to b: a still points at c, whose owner is b | detach first, as v2 does | not executed | Elements.MoveBreaksOldOwner | ObjectTree.Dom.AddObjectChild |
| myhtml_object.h:1056-1058 | the writability check returns HTML_STREAM_NOT_WRITEABLE when the stream IS writable | `HtmlGetObjectTextEx(doc, stream)` with a string stream returns HTML_STREAM_NOT_WRITEABLE and writes nothing | refuse only a stream that cannot be written | not executed | ObjectV2.TextExRefusesWritable | ObjectV2.TextExIntendedWrites |
| myhtml_object.h:1225-1227 | the copy is calloc'd and never given the type and name its comment promises | copying a `<p>` gives an object written `<(none)` | give the copy the original's type and name | not executed | Writer.CopyWritesNone | Document.CopyIntendedIsIdentity |
| myhtml2/myhtml_object.h:862-868 | putchar answers the character written, `'\n'`, which the test takes for a failure | `<br><p>x</p>` gives "\n" and HTML_OUT_OF_MEMORY | fail only when putchar answers EOF | not executed | ObjectV2.BrStopsText | ObjectV2.TextCodeIntended |
