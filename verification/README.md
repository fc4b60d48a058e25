# Enso text utilities, command adapters, Google command and cairo surface wrapper in Dafny

This project models four small sequential pieces of the Enso launcher and of its bundled cairo binding for Python. It proves properties of each.

- **XML text utilities** (`enso.utils.xml_tools`). The model covers these parts:
  - removal of the 29 control characters that XML text cannot carry;
  - `escapeXml`, written as three ordered one-character `replace` calls followed by that filter;
  - `getInnerText` over a DOM tree;
  - the output callbacks of `XmlIdentityHandler`, which writes SAX events back out as XML-like text. Processing instructions come out as `<?target data>` without the closing `?`, and attribute values are not escaped, so the output is not always well-formed XML.
- **Scriptotron adapters** (`enso.contrib.scriptotron.adapters`). The model covers these parts:
  - `makeCommandFromInfo`, which dispatches on the command type;
  - the factory mixin's state and the command it hands out for a postfix;
  - what running a command calls;
  - `BoundedArgFuncCommand.update`.
- **The `google` command** (`enso.contrib.google`). Running the command has three outcomes: "no text", "query too long", or "open this URL". The model covers that decision and the factory that builds the command from a postfix.
- **The cairo surface wrapper** (`pycairo-surface.c`). The model covers these parts:
  - `PycairoSurface_FromSurface` and its type-tag registry;
  - `surface_dealloc` and `surface_finish`;
  - the argument checks and default stride of `ImageSurface.create_for_data`;
  - the choice between a filename and a stream in the PDF, PS and SVG constructors and in `create_from_png`;
  - the `_write_func` and `_read_func` stream callbacks.

  Cairo is opaque. A native surface is an identity with a status, a type tag and a finished flag. The binding's bookkeeping is a `World` record:
  - a multiset of `cairo_surface_destroy` calls;
  - a multiset of the references that wrappers hold on Python objects.

  Each of these is a parameter of the model:
  - what cairo returns from a creation call;
  - whether `tp_alloc` succeeds;
  - the status left after `cairo_surface_finish`.

Python's `str.strip()` is shared by `getInnerText` and the Google command. It is modelled once (`Text.Strip`) with a fixed whitespace set: the characters Python 2's `unicode.isspace` accepts.

Four behaviours of the source are kept as written, and a member exposes each one:
- `FromSurface` does not destroy a healthy surface whose type tag the build has no class for (`UnsupportedTypeLeaks`). The function's own comment promises that the surface is unreferenced when creation fails. This is recorded under "## Findings" with a corrected version.
- The A1 default stride `(width + 1) / 8` holds a row only when `width` is 0 or 7 modulo 8 (`A1DefaultStrideHoldsRow`). For example, a 2-pixel row gets stride 0.
- `writeStartTag` writes attribute values unescaped. A value holding `<` puts a second `<` into one start tag (`UnescapedAttributeValueAddsOpener`). `OneOpenerPerMarkupEvent` therefore needs tag names, attributes and processing-instruction text to be free of `<`.
- `processingInstruction` writes `<?target data>`, with no `?` before the closing `>` (`WriteProcessingInstruction`).

Files:
- `results.dfy`: `Option` and `Result`.
- `seqs.dfy`: `Concat`, the end-to-end join of a sequence of sequences.
- `text.dfy`: `strip`.
- `xml_tools.dfy` and `xml_identity_handler.dfy`.
- `adapters.dfy`.
- `google.dfy`.
- `cairo_surface.dfy` and `cairo_streams.dfy`.

## Model

| member | source | states |
|---|---|---|
| Text.TrimLeft | trunk/core/enso/utils/xml_tools.py:139 | the result is a suffix of the input; everything dropped is whitespace; the result does not start with whitespace |
| Text.TrimRight | trunk/core/enso/utils/xml_tools.py:139 | the result is a prefix of the input; everything dropped is whitespace; the result does not end with whitespace |
| Text.StripUnique | trunk/core/enso/utils/xml_tools.py:139 | for a whitespace prefix, a middle with no whitespace at either end and a whitespace suffix, `strip` returns exactly the middle |
| Text.StripSplits | trunk/core/enso/utils/xml_tools.py:139 | every string is a whitespace margin, then `strip`'s result, then a whitespace margin |
| Text.StripIdempotent | trunk/core/enso/utils/xml_tools.py:139 | stripping twice equals stripping once |
| Text.Strip | trunk/core/enso/utils/xml_tools.py:139 | the result has no whitespace at either end and is no longer than the input |
| Text.StripEmptyIffAllSpace | trunk/core/enso/contrib/google.py:95-98 | `strip` gives the empty string exactly when the input is all whitespace, so the Google command reports no text exactly for a blank selection |
| Text.StripIgnoresPadding | trunk/core/enso/contrib/google.py:95 | whitespace added around the text does not change what `strip` returns |
| XmlTools.InvalidControlCharactersExactly | trunk/core/enso/utils/xml_tools.py:58-88 | a character is in the table exactly when it is below 0x20 and is not tab, LF or CR |
| XmlTools.InvalidControlCharactersAscending | trunk/core/enso/utils/xml_tools.py:58-88 | the table holds 29 code points in strictly ascending order, so none is listed twice |
| XmlTools.RemoveInvalidControlCharacters | trunk/core/enso/utils/xml_tools.py:142-163 | the result is never longer than the input and contains no invalid control character; a character occurs in it iff it occurs in the input and is valid |
| XmlTools.RemoveDistributes | trunk/core/enso/utils/xml_tools.py:152-160 | the filter distributes over concatenation, so the surviving characters keep their input order |
| XmlTools.RemoveSingle | trunk/core/enso/utils/xml_tools.py:152-160 | a single character is deleted iff it is one of the invalid controls |
| XmlTools.RemoveKeepsClean | trunk/core/enso/utils/xml_tools.py:142-163 | a string without invalid controls comes back unchanged |
| XmlTools.RemoveIdempotent | trunk/core/enso/utils/xml_tools.py:142-163 | filtering twice equals filtering once |
| XmlTools.ReplaceChar | trunk/core/enso/utils/xml_tools.py:173-176 | every character of the result is an input character other than the pattern, or comes from the replacement; if the replacement lacks the pattern character, the result lacks it too |
| XmlTools.EscapeXml | trunk/core/enso/utils/xml_tools.py:166-177 | the result contains no `<`, no `>` and no invalid control character |
| XmlTools.EscapeXmlIsEscapeRef | trunk/core/enso/utils/xml_tools.py:166-177 | the three ordered replacements plus the filter equal escaping each character independently, because `&` is replaced first |
| XmlTools.EscapeXmlDistributes | trunk/core/enso/utils/xml_tools.py:173-177 | `escapeXml` distributes over concatenation |
| XmlTools.EscapeXmlIsSafe | trunk/core/enso/utils/xml_tools.py:173-177 | the output contains no `<`, no `>` and no invalid control character, and every `&` in it begins `&amp;`, `&lt;` or `&gt;` |
| XmlTools.EscapeXmlRoundTrip | trunk/core/enso/utils/xml_tools.py:167-177 | decoding the three entities once in `escapeXml(s)` yields `removeInvalidControlCharacters(s)`, so every character is escaped exactly once |
| XmlTools.GetInnerText | trunk/core/enso/utils/xml_tools.py:124-139 | the result has no leading or trailing whitespace; its content is stated by `InnerTextIsAllText` and `InnerTextFromTextNodes` |
| XmlTools.Contribution | trunk/core/enso/utils/xml_tools.py:133-137 | a child that is not text or CDATA contributes its own inner text, which is itself stripped |
| XmlTools.JoinChildrenAppend | trunk/core/enso/utils/xml_tools.py:131-137 | the children's contributions are concatenated in document order |
| XmlTools.InnerTextFromTextNodes | trunk/core/enso/utils/xml_tools.py:124-139 | every character of the inner text comes from a text or CDATA node below the node |
| XmlTools.InnerTextIsAllText | trunk/core/enso/utils/xml_tools.py:124-139 | for any tree whose text and CDATA data hold no whitespace, the inner text is exactly the data of every text and CDATA node below the node, in document order |
| XmlTools.InnerTextOfTextChildren | trunk/core/enso/utils/xml_tools.py:131-139 | for an element whose children are all text nodes, the inner text is the stripped concatenation of their data |
| XmlIdentityHandler.AttributeText | trunk/core/enso/utils/xml_tools.py:199-203 | no attributes give no text; otherwise the text starts with a space and ends with a closing quote |
| XmlIdentityHandler.AttributeTextSingle | trunk/core/enso/utils/xml_tools.py:202-203 | one attribute is written as a space, the key, `="`, the unescaped value and `"` |
| XmlIdentityHandler.AttributeTextAppend | trunk/core/enso/utils/xml_tools.py:200-203 | the attributes are written one after another in sequence order |
| XmlIdentityHandler.WriteStartTag | trunk/core/enso/utils/xml_tools.py:196-204 | the call only appends; the appended text is `<`, the tag, the attribute text, `>`; with no attributes it is exactly `<tag>` |
| XmlIdentityHandler.WriteEndTag | trunk/core/enso/utils/xml_tools.py:206-209 | the call only appends, and what it appends is exactly `</tag>` |
| XmlIdentityHandler.WriteCharacters | trunk/core/enso/utils/xml_tools.py:211-212 | the call only appends; the appended text has no `<`, `>` or invalid control, every `&` in it begins one of the three entities, and it decodes to the data without invalid controls |
| XmlIdentityHandler.WriteProcessingInstruction | trunk/core/enso/utils/xml_tools.py:220-225 | the call only appends, and what it appends is exactly `<?target data>` |
| XmlIdentityHandler.Handle | trunk/core/enso/utils/xml_tools.py:211-218 | every callback keeps the output written so far as a prefix |
| XmlIdentityHandler.HandleAllAppend | trunk/core/enso/utils/xml_tools.py:196-225 | feeding two event streams one after the other produces the same output as feeding their concatenation |
| XmlIdentityHandler.UnescapedAttributeValueAddsOpener | trunk/core/enso/utils/xml_tools.py:199-203 | a start tag `a` with attribute value `<` contains two `<` characters |
| XmlIdentityHandler.OneOpenerPerMarkupEvent | trunk/core/enso/utils/xml_tools.py:196-225 | if the markup names contain no `<`, the output has exactly one `<` per start tag, end tag and processing instruction, whatever the character data |
| Adapters.Run | core/enso/contrib/scriptotron/adapters.py:22-26 | a function command calls its function with (ensoapi, argValue) iff `takesArg`, and with (ensoapi) alone otherwise; an argument-required command displays its message |
| Adapters.NewArgFunc | core/enso/contrib/scriptotron/adapters.py:39-51 | sets PREFIX to the command name plus a space, NAME to cmdExpr, HELP_TEXT to argName and DESCRIPTION_TEXT to desc |
| Adapters.GenerateCommandObj | core/enso/contrib/scriptotron/adapters.py:53-71 | the result is an argument-required command with `ARG_REQUIRED_MSG` iff the postfix is empty and an argument is required; otherwise it is a function command with `takesArg` equal to (postfix non-empty) and argValue equal to the postfix |
| Adapters.TypedPostfixReachesFunction | core/enso/contrib/scriptotron/adapters.py:22-36 | generating a command and running it passes a typed postfix to the function; with no postfix, the function gets ensoapi alone, or the user sees exactly `ARG_REQUIRED_MSG` |
| Adapters.Update | core/enso/contrib/scriptotron/adapters.py:85-88 | the postfix list becomes validargs when that is not None and is unchanged otherwise; nothing else changes |
| Adapters.UpdateIdempotent | core/enso/contrib/scriptotron/adapters.py:85-88 | repeating an update is a no-op, and a None answer changes nothing |
| Adapters.MakeCommandFromInfo | core/enso/contrib/scriptotron/adapters.py:92-117 | "no-arg" gives a function command that takes no argument, built from name, func, desc and help; "bounded-arg" and "arbitrary-arg" give the matching factory, built from the eight info fields; any other type, and only those, raises `ValueError` naming the type |
| Adapters.NoArgCommandCallsWithApiOnly | core/enso/contrib/scriptotron/adapters.py:93-100 | running a "no-arg" command calls its function with ensoapi alone |
| Adapters.FactoryKindsAgree | core/enso/contrib/scriptotron/adapters.py:101-115 | the two factory kinds hand out the same command for every postfix |
| Google.SearchDescription | trunk/core/enso/contrib/google.py:72-73 | the description is the fixed head, the parameter between curly quotes, and a full stop |
| Google.SearchDescriptionInjective | trunk/core/enso/contrib/google.py:72-73 | different parameters give different descriptions |
| Google.NewGoogleCommand | trunk/core/enso/contrib/google.py:62-73 | a description is set iff a parameter is given, and it names that parameter in curly quotes |
| Google.GenerateCommandObj | trunk/core/enso/contrib/google.py:132-141 | a non-empty postfix gives a command carrying it and described as a search for it; an empty one gives a parameterless command with the generic description |
| Google.BeforeUnderscore | trunk/core/enso/contrib/google.py:107 | the result is the prefix of the code up to, but not including, its first `_` |
| Google.Language | trunk/core/enso/contrib/google.py:105-109 | the result is "en" when the locale code is absent or empty; otherwise it is the prefix of the code up to, but not including, its first `_` (the whole code when it has none) |
| Google.LanguageOfLocale | trunk/core/enso/contrib/google.py:105-109 | a code of the form `lang_rest` yields `lang` |
| Google.Query | trunk/core/enso/contrib/google.py:100-115 | the URL is `http://www.google.com/search?hl=`, the language, `&q=` and the quoted text, in that order |
| Google.SearchText | trunk/core/enso/contrib/google.py:89-93 | an explicit parameter takes precedence over the selection; a selection without "text" gives the empty string |
| Google.Run | trunk/core/enso/contrib/google.py:75-120 | the command shows "No text was selected" iff the stripped text is empty; it opens `http://www.google.com/search?hl=` + language + `&q=` + the quoted text iff that text is non-empty and the URL's length is at most 2048; otherwise it shows "Your query is too long." |
| Google.TypedTextTakesPrecedence | trunk/core/enso/contrib/google.py:89-93 | a command made for a typed postfix behaves the same under any selection; one made without a postfix, under a selection without text, reports that no text was selected |
| Google.PaddingIsIgnored | trunk/core/enso/contrib/google.py:95-98 | whitespace around the parameter changes neither the URL nor the message |
| Google.LocaleLanguageInQuery | trunk/core/enso/contrib/google.py:100-115 | a locale `lang_REGION` yields a query with `hl=lang` |
| CairoSurface.WrapperTypeFor | trunk/src/platform/osx/pycairo/pycairo-surface.c:72-109 | a class is found iff the tag is image or a compiled-in backend, and the class found stands for that tag |
| CairoSurface.RegistryExact | trunk/src/platform/osx/pycairo/pycairo-surface.c:72-109 | each class is chosen for exactly its own tag, and only when compiled in |
| CairoSurface.FromSurface | trunk/src/platform/osx/pycairo/pycairo-surface.c:59-120 | an error status destroys the surface and fails; an unknown or compiled-out tag fails with "Unsupported Surface type" and destroys nothing; an allocation failure destroys the surface; on success the wrapper's class matches the tag, it holds exactly that surface and that base, and base gains one reference iff it is non-null |
| CairoSurface.UnsupportedTypeLeaks | trunk/src/platform/osx/pycairo/pycairo-surface.c:106-108 | on the unsupported-tag path the surface is neither wrapped nor destroyed |
| CairoSurface.FromSurfaceIntended | trunk/src/platform/osx/pycairo/pycairo-surface.c:52-53 | the corrected wrapper: an unsupported tag fails with "Unsupported Surface type" and destroys the surface; success is as in `FromSurface` |
| CairoSurface.IntendedOwnershipBalanced | trunk/src/platform/osx/pycairo/pycairo-surface.c:52-53 | in the corrected wrapper every failure destroys the surface exactly once, and a success followed by a release destroys it exactly once and restores every reference count |
| CairoSurface.IntendedAgreesOnSupportedTags | trunk/src/platform/osx/pycairo/pycairo-surface.c:72-108 | the corrected and as-written wrappers agree exactly when the surface is in error or its tag has a class |
| CairoSurface.Dealloc | trunk/src/platform/osx/pycairo/pycairo-surface.c:141-151 | destroys the native surface once if it is still held, nulls it, and drops the base reference |
| CairoSurface.DeallocIdempotent | trunk/src/platform/osx/pycairo/pycairo-surface.c:141-151 | a second release destroys nothing and drops no reference |
| CairoSurface.Finish | trunk/src/platform/osx/pycairo/pycairo-surface.c:175-182 | drops the base reference and marks the surface finished, keeping its identity and type tag; the status afterwards is the earlier error if there was one and otherwise the status cairo's finish left; an error is reported iff that status is not success, and it names that status |
| CairoSurface.FinishTwiceDropsBaseOnce | trunk/src/platform/osx/pycairo/pycairo-surface.c:175-182 | finishing twice drops the keep-alive reference only once |
| CairoSurface.OwnershipBalanced | trunk/src/platform/osx/pycairo/pycairo-surface.c:59-151 | wrapping and then releasing destroys the surface exactly once and restores every reference count; a status or allocation failure destroys it exactly once itself |
| CairoSurface.DefaultStride | trunk/src/platform/osx/pycairo/pycairo-surface.c:403-423 | ARGB32 and RGB24 get 4·w, RGB16_565 gets 2·w, A8 gets w (each exactly a row of their bits per pixel), A1 gets (w+1)/8, and an unknown format gets none |
| CairoSurface.A1DefaultStrideHoldsRow | trunk/src/platform/osx/pycairo/pycairo-surface.c:416-418 | the A1 default holds a row of w one-bit pixels iff w is 0 or 7 modulo 8; w = 2 gives stride 0 |
| CairoSurface.EffectiveStride | trunk/src/platform/osx/pycairo/pycairo-surface.c:403-404 | the default stride is used only when the given stride is negative |
| CairoSurface.CreateForData | trunk/src/platform/osx/pycairo/pycairo-surface.c:377-431 | checks run in order: non-writable buffer, width ≤ 0 (ValueError), height ≤ 0 (ValueError), unknown format when computing the default stride, height·stride > buffer length (TypeError); cairo is called iff all pass, and only then is the result wrapped with the buffer as base |
| CairoSurface.CreateForDataBoundary | trunk/src/platform/osx/pycairo/pycairo-surface.c:403-430 | for a 10×10 ARGB32 image with no stride, a 399-byte buffer is refused before cairo is called, and a 400-byte buffer reaches cairo with stride 40 and is kept alive |
| CairoSurface.ExplicitStrideSkipsFormatCheck | trunk/src/platform/osx/pycairo/pycairo-surface.c:403-429 | an unknown format is rejected only when the stride must be computed |
| CairoSurface.DocumentSurfaceNew | trunk/src/platform/osx/pycairo/pycairo-surface.c:635-667 | a string means the filename path with no base; an object without a callable `write` means TypeError with nothing created; otherwise the stream path is used with the object as base |
| CairoSurface.CreateFromPng | trunk/src/platform/osx/pycairo/pycairo-surface.c:453-477 | a string means the filename path; an object without a callable `read` means TypeError; otherwise the stream path is used; neither path keeps a base |
| CairoSurface.StreamKeptAliveUntilRelease | trunk/src/platform/osx/pycairo/pycairo-surface.c:663-666 | a stream-backed document surface holds exactly one extra reference on the stream until it is released; a path-backed one holds none |
| CairoStreams.WriteFunc | trunk/src/platform/osx/pycairo/pycairo-surface.c:126-139 | returns WRITE_ERROR iff the sink's `write` raised, leaving the sink unchanged, and SUCCESS otherwise; a working sink receives exactly the `length` bytes at its end, stays working and is left positioned at its end |
| CairoStreams.ReadFunc | trunk/src/platform/osx/pycairo/pycairo-surface.c:435-450 | returns READ_ERROR iff `read` raised or returned a non-string, leaving the buffer and the source untouched; otherwise it copies exactly the next `length` bytes verbatim and advances the position by `length`; the file's contents and the way `read` behaves never change |
| CairoStreams.ReadCopiesZeroBytes | trunk/src/platform/osx/pycairo/pycairo-surface.c:447-448 | a zero byte read from the stream lands in the buffer, because the copy is not cut short at NUL |
| CairoStreams.WriteAllAppends | trunk/src/platform/osx/pycairo/pycairo-surface.c:126-139 | every write to a working in-memory file succeeds, and the file ends up holding the chunks in order |
| CairoStreams.ReadAllReturns | trunk/src/platform/osx/pycairo/pycairo-surface.c:435-450 | reading buffers of the chunks' lengths from a file that holds the chunks returns them one by one |
| CairoStreams.StreamRoundTrip | trunk/src/platform/osx/pycairo/pycairo-surface.c:126-139 | whatever the write callback stores in a fresh in-memory file, the read callback returns unchanged, chunk by chunk |

## Left out

- The `str`/`unicode` split of `removeInvalidControlCharacters`, and its `AssertionError` for other types, are left out. The model has one character-string type.
- Python's `strip()` is modelled with a fixed whitespace set, Python 2's `unicode.isspace` set. There is no locale- or version-dependent whitespace.
- `runTransform` and `DirResolver` are left out. They depend on the SAX parser and the filesystem.
- `XmlIdentityHandler.__init__` is left out. Its choice of output file is I/O; the output is the string written so far.
- XmlIdentityHandler.WriteCharacters, WriteStartTag, WriteEndTag and WriteProcessingInstruction: every write is modelled as succeeding. With no `outFile`, the handler writes to a `cStringIO.StringIO()` (xml_tools.py lines 189-194), whose `write` raises `UnicodeEncodeError` for non-ASCII unicode text. SAX delivers unicode, so a non-ASCII character in character data, a tag, an attribute or processing-instruction text raises there. Because `writeStartTag`, `writeEndTag` and `processingInstruction` make several writes each, such a raise can leave part of a tag already written. This error path is not modelled.
- Attribute order in `writeStartTag` is the order of the attribute sequence. The source uses whatever order the mapping's `keys()` yields.
- `%s` formatting of attribute keys and values is taken as the identity on strings.
- The script function and `ensoapi` are opaque. Their calls are represented by the `Call` effect.
- Adapters.MakeCommandFromInfo: a missing key raises `KeyError` in the source. The model's info record always has every field, so this case is not modelled.
- The base classes `CommandObject`, `GenericPrefixFactory` and `ArbitraryPostfixFactory` are not part of this model. Only the fields these files set are kept. A new bounded factory's postfix list is taken to be empty.
- `GoogleCommandFactory`'s `HELP_TEXT`, `PREFIX` and `NAME` class constants and `load()` are not modelled. They are registration data with no behaviour.
- Several calls from `google.py` are left out or abstracted:
  - `urllib.quote_plus` of the UTF-8 encoding is an uninterpreted function `quote`;
  - `locale.getdefaultlocale()` and `selection.get()` are inputs;
  - `webbrowser.open` and `displayMessage` are the two outcomes;
  - the ASCII `.decode()` of the parameter, which can raise on non-ASCII bytes, is not modelled.
- `Pycairo_Check_Status` and the `RETURN_NULL_IF_CAIRO_*` macros are not part of this model. They are taken to fail exactly on a non-success status.
- Which Python exception a given status maps to is not modelled.
- Several parts of the cairo binding are out of scope:
  - the type tables;
  - `surface_new`, `surface_create_similar` and `surface_flush`;
  - the getters and setters that only forward to cairo (`get_content`, device offset, font options, `mark_dirty`, fallback resolution, the image getters, `set_size`, the PostScript DSC calls, and the Win32, Xlib and Quartz constructors);
  - `write_to_png`, whose target choice mirrors `create_from_png`;
  - the buffer protocol;
  - everything cairo itself computes.
- All double-valued parameters (sizes in points, offsets, resolutions) are left out.
- CairoSurface.CreateForData: `height * stride` and `width * 4` use mathematical integers. The source multiplies C `int`s, which can overflow and let an undersized buffer through.
- `PyArg_ParseTuple` argument-type errors are not modelled. The exception that `PyObject_AsWriteBuffer` raises is the single `NotWritableBuffer` error.
- CairoStreams.ReadFunc: a string source must hold at least `length` bytes. This is a precondition because the callback copies `length` bytes without checking how many `read` returned.
- CairoStreams.ReadFunc: the callback drops its reference to the returned string (`Py_DECREF`, line 444) before copying from that string's buffer (line 448). When `read` returned a fresh string, the copy reads freed memory. The model assumes the bytes are still intact and copies them verbatim; memory reuse is not modelled.
- CairoStreams.WriteFunc: the in-memory file only appends. The file is taken to be positioned at its end when it is handed to cairo. A file positioned earlier (after `seek(0)` on existing content, say) would be overwritten from that position, which is not modelled.
- XmlTools.GetInnerText: the function's own contract states only that the result is stripped. The full content is stated for trees whose text holds no whitespace (`InnerTextIsAllText`); for other trees only character membership is stated (`InnerTextFromTextNodes`), because inner stripping can remove whitespace from the middle of the result.
- CairoStreams.WriteFunc: a raising sink is modelled as storing nothing. Its real side effects before raising are unknown.

## Findings

| source | as written | input that shows it | evidently intended | confidence | as-written member | corrected member |
|---|---|---|---|---|---|---|
| trunk/src/platform/osx/pycairo/pycairo-surface.c:106-108 | the default branch of the type switch raises "Unsupported Surface type" and returns without `cairo_surface_destroy`, so the surface leaks | a healthy surface whose type tag has no compiled-in class, e.g. `OtherType(0)` | the surface is unreferenced on every failure, as the comment at lines 52-53 says | medium, not executed | CairoSurface.UnsupportedTypeLeaks | CairoSurface.IntendedOwnershipBalanced |

The creation functions (`CreateForData`, `DocumentSurfaceNew`, `CreateFromPng`) keep the as-written `FromSurface`. By `IntendedAgreesOnSupportedTags`, they behave identically under the corrected version whenever cairo returns a surface whose tag has a class.
