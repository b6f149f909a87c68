# QuickAbout snippet assembly and login gate, in Dafny

QuickAbout turns pasted "About" text for a product category into an HTML
snippet: a body formatted by a language model, an FAQ accordion built from
"Q: ... A: ..." pairs that a second model call extracts, and a spacer block
when the accordion is not empty. Separately, auth.py provides a login gate
with a 30-minute session.

This project models the two deterministic parts of that program:

- `FaqHtml` (faq.dfy): `build_html` from main.py once both model answers are
  in. The body HTML and the raw FAQ text are parameters. `BuildHtml` is the
  loop over the `"Q: "` pieces with its 1-based counter, proved equal to the
  pure specification `AssembledHtml`. The lemmas state which pieces become
  accordion items, with which index, question and answer, and how the
  snippet is laid out.
- `Auth` (auth.py): the session gate as a `Session` class with the two
  optional session keys as fields. The methods are `Login`,
  `IsAuthenticated` and `Logout`. The clock reading is an integer
  parameter.
- `PyStr` (pystr.dfy) and `Template` (template.dfy): the Python built-ins
  those two depend on, stated over `string`. They are `str.strip()` with
  Python's whitespace set, `str.split(sep)`, `sep.join`, `str.count`,
  `str(n)`, and `str.format` with named fields.
- `Wrappers` (wrappers.dfy): the `Option` datatype, standing for Python's
  `None`.

Two points where the model follows the code:

- No text is ever removed from the body. `build_html` passes the pasted text
  unchanged to both model calls (main.py:105-106).
- An item is kept whenever its stripped piece splits into exactly two parts
  on `"A: "` (main.py:110-111). So an empty question still yields an item.
  An empty answer never does: stripping the piece first removes the space of
  a trailing `"A: "`, so that piece no longer holds the marker
  (`FaqHtml.AnswerNonEmpty`).

## Model

| member | source | states |
|---|---|---|
| `FaqHtml.ParsePiece` | main.py:110-113 | Strips the piece and splits it on `"A: "`. With exactly two parts it gives the stripped question and answer, and otherwise nothing. Its properties are stated by `PieceKeptIff`, `PieceParts` and `AnswerNonEmpty`. |
| `FaqHtml.RenderFaq` | main.py:114 | `FAQ_TEMPLATE.format(index=i, question=..., answer=...)`. Its layout is stated by `RenderFaqLayout`. |
| `FaqHtml.FillBase` | main.py:118 | `BASE_TEMPLATE.format(...)` with the three blocks. Its layout is stated by `FillBaseLayout`. |
| `FaqHtml.AssembledHtml` | main.py:108-118 | The specification of `build_html` as a function of the two model answers. `BuildHtml` is proved equal to it, and `AssembledHtmlLayout` states its layout. |
| `FaqHtml.BuildHtml` | main.py:104-118 | The loop over the `"Q: "` pieces with its 1-based counter, followed by the wrapper fill, returns exactly `AssembledHtml(body, faqsRaw)`. So the output is a deterministic function of the body and the FAQ text. |
| `FaqHtml.AssembledHtmlLayout` | main.py:116-118 | The snippet is the wrapper around the body, inserted verbatim. Next come the rendered items in item order, joined by `"\n"`. The spacer is present exactly when at least one item was rendered, and is the empty string otherwise. |
| `FaqHtml.FillBaseLayout` | main.py:14-30 | `BASE_TEMPLATE.format(...)` puts content blocks, FAQ blocks and spacer block verbatim into the wrapper's three slots, in that order. |
| `FaqHtml.RenderFaqLayout` | main.py:32-43 | An item shows its question and answer verbatim. It puts `str(index)` after `#faq-` in the collapse target and after `faq-` in the answer's id. |
| `FaqHtml.FaqsFromPieces` | main.py:109-114 | Each item's index lies between 1 and the number of pieces. Its question and answer are what the piece at that 1-based position parses to. |
| `FaqHtml.FaqIndicesIncrease` | main.py:109-114 | Item indices strictly increase, so items appear in the order of their pieces. |
| `FaqHtml.ParsedPiecesRendered` | main.py:109-114 | Every piece that parses yields an item whose index is its 1-based position. Dropped pieces leave gaps in the numbering. |
| `FaqHtml.FaqIdsDistinct` | main.py:109-114 | No two items share a `faq-<index>` anchor id. |
| `FaqHtml.FaqCountBound` | main.py:109 | There are exactly as many pieces as non-overlapping `"Q: "` occurrences. There are never more items than that, and no index is larger than it. |
| `FaqHtml.NoMarkerNoFaqs` | main.py:109-118 | Without `"Q: "` there are no items. The snippet is then the wrapper with the body, an empty accordion and no spacer. |
| `FaqHtml.PieceKeptIff` | main.py:110-111 | A piece becomes an item exactly when its stripped text holds exactly one `"A: "`. With none or several, it is dropped. |
| `FaqHtml.AnswerNonEmpty` | main.py:110-113 | Every kept item has a non-empty answer. |
| `FaqHtml.PieceParts` | main.py:110-113 | Suppose the stripped piece is a marker-free question part, then `"A: "`, then a marker-free answer part. Then the item's question and answer are those two parts, stripped. |
| `FaqHtml.PreambleIgnored` | main.py:109 | Text before the first `"Q: "` never reaches an item. Any marker-free preamble gives the same items as none. |
| `FaqHtml.SinglePiece` | main.py:109 | Text that opens with `"Q: "` and holds no other marker has exactly one piece: the rest of the text. |
| `FaqHtml.SingleQuestion` | main.py:109-114 | Such text yields at most one item. That item has index 1 and comes from the one piece. |
| `FaqHtml.Generate` | main.py:163-165 | Generation happens exactly when the pasted text is not all whitespace. Its result is the assembled snippet. |
| `PyStr.Find` | main.py:109-110 | The search for the next separator that `str.split` repeats from left to right. It yields the first index where `sep` occurs, and none exactly when `sep` does not occur. |
| `PyStr.Split` | main.py:109-110 | `s.split(sep)`: at least one piece, the whole string when `sep` does not occur, and at least two pieces otherwise. `SplitJoin`, `SplitPieceFree`, `SplitCount` and `SplitInTwo` characterise it. |
| `PyStr.Join` | main.py:118 | `sep.join(pieces)`: the pieces with `sep` between neighbours. It is the inverse of `Split` (`SplitJoin`). |
| `PyStr.Strip` | main.py:110-113 | `s.strip()`: never longer than `s`. `StripSpec` and `StripUnique` characterise it. |
| `PyStr.SplitJoin` | main.py:109-110 | Joining the pieces of `s.split(sep)` with `sep` gives back `s`. |
| `PyStr.SplitPieceFree` | main.py:109-110 | No piece of `s.split(sep)` contains `sep`. |
| `PyStr.SplitCount` | main.py:109-110 | `s.split(sep)` has one more piece than `s.count(sep)`. Here `count` is an independent left-to-right scan. |
| `PyStr.SplitInTwo` | main.py:110-111 | Take a separator that cannot overlap itself. `s.split(sep) == [x, y]` holds exactly when `s == x + sep + y` and neither `x` nor `y` contains `sep`. |
| `PyStr.FindAfter` | main.py:109-110 | For a separator that cannot overlap itself, the first `sep` in `x + sep + y` with marker-free `x` is at `|x|`. |
| `PyStr.StripSpec` | main.py:110-113 | `s.strip()` is a slice of `s` with only whitespace cut from either side. It has no whitespace at either end, and it is empty exactly when `s` is all whitespace. |
| `PyStr.StripUnique` | main.py:110-113 | Cutting whitespace off both ends of `s` so that none is left at either end always gives `s.strip()`. |
| `PyStr.Decimal` | main.py:114 | `str(n)` for a natural: non-empty, all digits, and with no leading zero unless it is `"0"`. |
| `PyStr.DecimalRoundTrip` | main.py:114 | Reading back the digits of `str(n)` gives `n`. |
| `PyStr.DecimalInjective` | main.py:114 | Different indices print differently. |
| `Template.Format` | main.py:114-118 | `str.format` with named fields: literal runs are copied and each field is replaced by its value. It requires every field to be bound, as Python raises `KeyError` otherwise. |
| `Template.FormatThreeFields` | main.py:118 | A three-field template puts each value verbatim between its neighbouring literal runs. Braces inside a value are never read as fields. |
| `Template.FormatFourFields` | main.py:114 | The same holds for the four-field item template. |
| `Auth.Accepts` | auth.py:23 | A login is accepted exactly when both configured credentials are set and equal the submitted username and password. An unset credential refuses every login. |
| `Auth.Session.Login` | auth.py:22-28 | On accepted credentials, the session becomes authenticated with `login_time = now` and is active. Otherwise both keys are left unchanged. |
| `Auth.Session.IsAuthenticated` | auth.py:30-39 | Returns true exactly when `authenticated` is true, a login time exists and less than 30 minutes (strict) have passed. A true result, or a session never authenticated, leaves the state unchanged. An authenticated session that is expired or has no login time is cleared. |
| `Auth.Session.Logout` | auth.py:41-44 | The session is cleared, so no later check at any time passes. |

## Left out

- `generate_formatted_html` and `extract_faqs` (main.py:54-102) call the OpenAI API. Their answers are the `body` and `faqsRaw` parameters. The `.strip()` these functions apply to the model output is part of that opaque answer.
- Loading the API key and the login credentials from the environment (main.py:8-9, auth.py:8-10) is I/O. Credentials are passed in as a `Credentials` value.
- The Streamlit UI is not modelled: page setup, CSS, text area, spinner, code view, download and copy buttons, how-to expander, the login form widgets, `st.error`, `st.warning` and `st.rerun`. Of the generate button, only its guard on the stripped input is kept, as `Generate`.
- `datetime.now()` becomes an integer reading in microseconds, the resolution of `datetime`. Time zones and clock skew are not modelled.
- `session_state` holds only the two keys the gate uses. `clear()` also drops any other keys, which the model does not track. `authenticated` is an `Option<bool>`: only `True` is ever stored there, so other truthy values are not modelled. `login_time` counts as present whenever it is set, because a `datetime` is always truthy.
- `PyStr.Count` is the non-overlapping count that `str.count` computes. For the two markers, `"Q: "` and `"A: "`, this equals the number of all occurrences, since neither can overlap itself (`FaqHtml.MarkersSelfDisjoint`).
- Templates are given as lists of literal runs and named fields, not parsed from brace syntax. The three templates of main.py contain no escaped braces, and their texts match main.py:14-49 character for character.
