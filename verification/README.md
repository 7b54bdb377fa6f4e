# Paste bin worker: rendering, identifiers and the two handlers, in Dafny

This project models the logic of a Cloudflare-Worker paste bin. A client posts
`{code, language}`. The worker stores the code in a KV namespace under the key
`<id>.<language>`, where `id` is seven random alphanumeric characters. It then
redirects to that key, and a later GET serves the stored text with a long cache
lifetime. A separate renderer turns code into a themed HTML page.

The project has five modules:

- `Results`: `Option` and `Result`, shaped like Rust's.
- `Text`: substring search and Rust's `str::replace`. It scans left to right,
  replaces non-overlapping occurrences and never rescans the replacement. An
  empty pattern inserts the replacement at every character boundary.
- `Highlight` (`src/utils.rs`): the page template and `syntax_highlight_code`.
  The syntax registry (`find_syntax_by_extension`) and the highlighter
  (`highlighted_html_for_string`) are function parameters:
  `string -> Option<Syntax>` and `(string, Syntax) -> Result<string, string>`.
- `PasteIds` (`src/handlers.rs`): identifier generation and the storage key.
  Randomness is the sequence of alphabet positions the sampler yields.
  `SplitAtFirstDot` is not in the source. It is the inverse of the key format,
  used to state that the key can be decoded.
- `Handlers` (`src/handlers.rs`): `create_paste` and `get_paste`. The KV
  namespace is a `map<string, string>`, passed in and returned. A missing
  namespace binding is `None`. An unparsable body is `None`. What the store
  does on `put` and `get` is an input, so every error branch can be reached.

Where the code departs from what a paste service would be expected to do, the
model follows the code:

- `create_paste` does not check that the code or the language is non-empty.
- There is no delete handler, and no choice between raw and rendered reads.
- A read of an absent key panics instead of answering "not found".
- A failed read answers "missing id".

## Model

| member | source | states |
|---|---|---|
| `Text.ReplaceAbsent` | src/utils.rs:48-50 | `str::replace` leaves a string with no occurrence of the pattern unchanged |
| `Text.ReplaceFront` | src/utils.rs:48-50 | a match at the front is replaced, and the scan resumes after it, not inside the replacement |
| `Text.ReplaceSkipsPrefix` | src/utils.rs:48-50 | a prefix that lacks the pattern's first character passes through the replacement unchanged |
| `Text.ReplaceConcat` | src/utils.rs:48-50 | replacing in `a + b` equals replacing in `a` and in `b` when no match can straddle the seam |
| `Text.ReplaceAround` | src/utils.rs:48-50 | a match between two strings is replaced on its own by the replacement, and the scan resumes right after it, when the pattern's first character does not recur in it |
| `Text.ReplaceLength` | src/utils.rs:48-50 | a replacement no longer than the pattern never grows the string, one no shorter never shrinks it, and strictly shrinks or grows it when a match exists and the lengths differ |
| `Text.ReplaceChanges` | src/utils.rs:48-50 | where the pattern occurs, replacing it by a different string changes the result |
| `Text.ReplaceIdentityIff` | src/utils.rs:48-50 | with a replacement different from the pattern, the string is unchanged exactly when the pattern does not occur |
| `Highlight.TemplateTags` | src/utils.rs:18-29 | the template has exactly one `{lang}`, at the title position, and exactly one `{code}`, at the body position; `{lang}` comes first; so the template contains both placeholders |
| `Highlight.ErrorMessage` | src/utils.rs:38-46 | the unknown-extension message ends with the language; the highlighter message ends with the highlighter's error |
| `Highlight.SyntaxHighlightCode` | src/utils.rs:32-51 | an unknown extension gives `NoSyntax(lang)`; a highlighter failure gives `HighlightFailed` with its error; otherwise the page is the title head, the language, the text between the placeholders, the HTML with its own `{lang}` replaced, and the body tail; the result succeeds exactly when both foreign calls succeed |
| `Highlight.FillTemplate` | src/utils.rs:48-50 | `{code}` substitution followed by `{lang}` substitution on the template gives that page, for every HTML and language |
| `Highlight.PageWhenNoTags` | src/utils.rs:22-25 | when the HTML holds no `{lang}`, the page is the template with the language once in the title and the HTML once, verbatim, in the body |
| `Highlight.LangTagInHtmlRewritten` | src/utils.rs:48-50 | a `{lang}` inside the highlighted HTML is also replaced by the language, whatever precedes or follows it |
| `Highlight.LangVerbatimInTitle` | src/utils.rs:48-50 | on success the language appears verbatim in the title, even if it contains `{code}` |
| `Highlight.SyntaxHighlightCodeOnePass` | src/utils.rs:48-50 | corrected rendering: same errors as the source; on success the title holds the language and the body holds the HTML, both verbatim |
| `Highlight.OnePassAgreesWithoutLangTag` | src/utils.rs:48-50 | the source's rendering and the corrected one agree whenever the HTML holds no `{lang}` |
| `Highlight.OnePassAgreesIffNoLangTag` | src/utils.rs:48-50 | for any language other than `{lang}`, the source's page equals the corrected one exactly when the highlighted HTML holds no `{lang}` |
| `Highlight.LangTagInCodeIsLost` | src/utils.rs:48-50 | code `{lang}` under a highlighter that echoes it renders as `txt` in the source but as `{lang}` in the corrected rendering |
| `PasteIds.AlphabetChar` | src/handlers.rs:12-14 | every sampled alphabet position yields a character in `[A-Za-z0-9]` |
| `PasteIds.AlphabetIndexOf` | src/handlers.rs:12-14 | every alphanumeric character is produced by exactly the position returned |
| `PasteIds.AlphabetCharInjective` | src/handlers.rs:12-14 | distinct positions give distinct characters |
| `PasteIds.NewId` | src/handlers.rs:11-15 | a generated id has 7 characters, all in `[A-Za-z0-9]`, has no `.`, and the k-th character comes from the k-th draw |
| `PasteIds.NewIdBijective` | src/handlers.rs:11-15 | every 7-character alphanumeric id can be generated, and exactly one choice of the first seven draws generates it |
| `PasteIds.SplitAtFirstDot` | src/handlers.rs:18 | decoding a key gives a dot-free head; if the key has a `.`, it is the head, `.`, then the rest; otherwise the language is empty |
| `PasteIds.StorageKeyRoundTrip` | src/handlers.rs:17-18 | a key built from a dot-free id splits back into that id and the language verbatim, even when the language has dots |
| `PasteIds.GeneratedKeyShape` | src/handlers.rs:11-18 | the key of a generated id has length `8 + |language|`; its first `.` is at index 7 and the language follows it verbatim; the split recovers both parts |
| `PasteIds.StorageKeyInjective` | src/handlers.rs:17-18 | two dot-free ids give the same key only with the same id and the same language |
| `PasteIds.DottedLanguageRoundTrip` | src/utils.rs:209 | a key for the offered language `config.ru` splits back at index 7 into the id and `config.ru` |
| `Handlers.CreatePaste` | src/handlers.rs:6-37 | a bad body fails; a missing binding fails; a put that cannot be built fails; a failed put answers "couldn't add pase to database"; these paths leave the store unchanged; the redirect happens exactly when the put succeeds, and then goes to `http://localhost:8787/` plus the key with the store updated at that key to the code |
| `Handlers.GetPaste` | src/handlers.rs:39-63 | no `id` answers "missing id"; a missing binding fails; a failed read answers "missing id"; a present key serves its value verbatim with `max-age=2629746`; it panics exactly when the key is absent |
| `Handlers.GetPasteChecked` | src/handlers.rs:49-54 | corrected read: never panics; serves text exactly when the key is present; answers "missing id" for an absent key |
| `Handlers.GetPasteCheckedAgrees` | src/handlers.rs:49-54 | the corrected read matches the source's wherever the source does not panic |
| `Handlers.GetAbsentKeyPanics` | src/handlers.rs:54 | reading `abc1234.rs` from an empty namespace panics in the source and answers "missing id" in the corrected read |
| `Handlers.GetWithoutIdIgnoresStore` | src/handlers.rs:40-44 | without an `id` parameter the answer is the same whatever the store holds and however it behaves |
| `Handlers.CreateWritesOneEntry` | src/handlers.rs:20-29 | a successful create adds exactly the new key, holding the submitted code verbatim; every other entry is unchanged |
| `Handlers.CreateThenGet` | src/handlers.rs:18-54 | the key in the redirect splits back into the generated id and the language; reading it from the new store serves the submitted code verbatim with the cache header |
| `Handlers.CreateKeepsOtherPastes` | src/handlers.rs:20-29 | a create does not change what any other key reads as |
| `Handlers.CreateOverwritesOnCollision` | src/handlers.rs:11-25 | no collision check is made: if the generated key already exists, its old paste is replaced and the store does not grow |

## Left out

- The foreign syntax library is not modelled. Its syntax set, its theme set and the `Solarized (dark)` theme are left out. Extension lookup and highlighting are function parameters; the model does not know what HTML they produce or how it escapes text.
- `get_web_template` is not modelled. It is static form HTML with no logic.
- `set_panic_hook` and its `cfg_if` switch are not modelled. They are build configuration.
- The router in `src/lib.rs` and its request logging are not modelled. They are I/O glue. Its calls to `get_paste` and `delete_paste` do not match the handlers shown, so no raw/rendered choice and no delete are modelled.
- `src/types.rs` is not modelled. Its JSON (de)serialisation is foreign code. A body that does not parse is `None`, and JSON answers carry only their message.
- The async KV binding, the Worker request, response and header types, and status codes are not modelled. They are transport.
- `Handlers.CreatePaste`: the redirect is the string `http://localhost:8787/` plus the key. URL parsing is left out, including normalisation of unusual characters and the `unwrap` on a parse failure, because the URL library is foreign code.
- `PasteIds.NewId`: the quality of the random generator and the sampler's rejection of out-of-range values are not modelled. The model starts from the alphabet positions the sampler yields.
- `console_error!` logging on the failure branches is not modelled. It is output only.

## Findings

| source | as written | input that shows it | evidently intended | confidence | as-written member | corrected member |
|---|---|---|---|---|---|---|
| src/handlers.rs:54 | `value.unwrap()` on a read that found nothing | GET `/abc1234.rs` against an empty namespace | answer "not found" like the read-error branch, not panic | not executed; high | `Handlers.GetAbsentKeyPanics` | `Handlers.GetPasteChecked` |
| src/utils.rs:48-50 | `{code}` is substituted first, so a `{lang}` in the highlighted code is rewritten too | code `{lang}` with language `txt`, if the highlighter emits the braces unescaped | the page shows the pasted code verbatim | not executed; medium (depends on the highlighter's escaping) | `Highlight.LangTagInCodeIsLost` | `Highlight.SyntaxHighlightCodeOnePass` |
