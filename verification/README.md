# Quote segmenter and paste offset of the shorts video generator

The shorts generator turns an anime quote into a vertical video. It picks a
quote and resizes a background image. It splits the quote into spoken parts.
It synthesises speech for each part and renders one clip per part with an
external encoder, then concatenates the clips. Apart from two pure pieces, all
of this is glue around external libraries and processes. This project models
those two pieces and proves what they do.

- `segmenter.dfy`, module `Segmenter`: `divide_quote_into_parts`.
  - The quote is cut at every whitespace character that directly follows
    `.`, `?` or `!`, as `re.split(r'(?<=[.?!...])\s', quote)` does.
    `FindSplit`, `RawSplit` and `Separators` model this split.
  - Each piece except the last then gets the first `.`, `?` or `!` it
    contains appended. `FirstPunct` and `AttachPunct` model this step.
  - `Divide` is the whole function. Its result type is a `Result`, so that
    the `AttributeError` raised by `re.search(...).group()` on `None` is
    modelled. Its contract proves that this error never happens.
  - `\s` is the full set of characters for which Python's `str.isspace()`
    holds, not just ASCII. No character is both whitespace and punctuation.
    The proofs rely on that.
- `compositor.dfy`, module `Compositor`: the paste position
  `((tw - nw) // 2, (th - nh) // 2)` of `resize_and_pad`.
  - The resized size `(nw, nh)` is an input.
  - Python's floor `//` by 2 is Dafny's Euclidean `/` by 2. The two agree for
    negative numerators too.

The segmenter is modelled as the code behaves. The comment on line 67 says
the punctuation is "added back", and the intended segments of
`"Believe it! Never give up."` are `["Believe it!", "Never give up."]`. The
code returns `["Believe it!!", "Never give up."]`. The split keeps the
punctuation through its lookbehind, and line 69 appends it a second time.
The model follows the code here; see "## Findings". The code also yields an
empty last part for a quote that ends in punctuation followed by one
whitespace character (`"Hi. "` gives `["Hi..", ""]`). The model keeps that
behaviour as it is.

## Model

| member | source | states |
|---|---|---|
| Segmenter.FindSplit | shorts.py:60 | The first split point found from a given index: a whitespace character at index k ≥ 1 preceded by `.`, `?` or `!`. No earlier index is a split point. `None` means there is none. |
| Segmenter.RawSplit | shorts.py:60 | `re.split` returns at least one piece. Every piece except the last ends in `.`, `?` or `!`. |
| Segmenter.Separators | shorts.py:60 | Every character consumed by the split is whitespace. |
| Segmenter.FindPunct | shorts.py:69 | Returns the index of the leftmost `.`, `?` or `!` at or after a given index. `None` means there is none. |
| Segmenter.FirstPunct | shorts.py:69 | `re.search(...).group()` fails exactly when the piece has no `.`, `?` or `!`. Otherwise it returns the first such character. |
| Segmenter.AttachPunct | shorts.py:63-70 | The loop succeeds exactly when every non-final piece contains punctuation. A failure names a piece that has none. On success it keeps the piece count, appends its first punctuation character to each non-final piece, and leaves the last piece unchanged. |
| Segmenter.Divide | shorts.py:58-73 | The search on line 69 never fails. The lookbehind leaves punctuation at the end of every non-final piece. |
| Segmenter.PunctFound | shorts.py:69 | A piece that ends in punctuation contains punctuation, so the search finds some. |
| Segmenter.RawSplitCount | shorts.py:60 | The number of pieces is one more than the number of split points. |
| Segmenter.RawSplitRebuild | shorts.py:60 | There is one separator fewer than pieces. Putting the separators back between the pieces, in order, gives the quote exactly. |
| Segmenter.RawSplitJoin | shorts.py:60 | If every split point holds a plain space, `" ".join(pieces)` gives the quote back. |
| Segmenter.RawPiecesUnsplittable | shorts.py:60 | No piece contains punctuation directly followed by whitespace. |
| Segmenter.RawSplitLastSuffix | shorts.py:60 | The last piece is a suffix of the quote. |
| Segmenter.RawSplitLastCut | shorts.py:60 | When there is a split point, the last piece starts right after the final one. |
| Segmenter.RawSplitSingle | shorts.py:60 | The split returns `[quote]` exactly when the quote has no split point. |
| Segmenter.DivideCount | shorts.py:58-73 | The result is never empty. It has one part more than there are split points. |
| Segmenter.DivideNonFinalParts | shorts.py:66-70 | Each non-final part is its raw piece plus the first punctuation character of that piece. It has at least two characters, and its last two are both punctuation. |
| Segmenter.DivideLastPart | shorts.py:66-70 | The last part is the text after the final split point, with nothing appended. It is the whole quote when there is no split point. It may be empty. |
| Segmenter.DivideUntag | shorts.py:60-70 | Removing the appended character from each non-final part gives back the raw pieces. |
| Segmenter.DivideRoundTrip | shorts.py:60-70 | There is one separator fewer than parts. Putting the consumed whitespace back, in order, between the trimmed parts gives the quote exactly. |
| Segmenter.DivideSpaceJoin | shorts.py:60-70 | If every split point holds a plain space, joining the trimmed parts with `" "` gives the quote. |
| Segmenter.DivideSingle | shorts.py:58-73 | The result is `[quote]` exactly when the quote has no punctuation followed by whitespace. |
| Segmenter.DividePiecesUnsplittable | shorts.py:60-70 | No trimmed part contains punctuation followed by whitespace. |
| Segmenter.TwoSentenceSplitPoints | shorts.py:60 | Two sentences without inner cuts, joined by one whitespace character, have exactly one split point: the joining character. |
| Segmenter.DivideTwoSentences | shorts.py:58-73 | For two such sentences, the first comes back with its first punctuation character appended and the second comes back unchanged. |
| Segmenter.DividePartLengths | shorts.py:66-70 | Each non-final part is one character longer than its raw piece. The last part is as long as the last piece. |
| Segmenter.DivideRejoinGrows | shorts.py:66-70 | `" ".join(parts)` is longer than the quote by the number of split points. |
| Segmenter.DivideRejoinFails | shorts.py:66-70 | `" ".join(parts)` equals the quote exactly when the quote has no split point. |
| Segmenter.DivideIntended | shorts.py:58-73 | Corrected segmenter without the duplication. It has one part per split point plus one, and weaving the separators back gives the quote. Non-final parts end in their own punctuation. No part can be split again. |
| Segmenter.IntendedRejoins | shorts.py:58-73 | With the corrected segmenter, if every cut is at a plain space, joining the parts with `" "` gives the quote back. |
| Segmenter.TwoSentencesRejoin | shorts.py:66-70 | Two sentences without inner cuts, joined by a space, do not come back from `" ".join(parts)` as written. They do come back with the corrected segmenter. |
| Segmenter.DivideUncut | shorts.py:58-73 | A quote with no split point comes back as a one-element list holding the quote. |
| Segmenter.ExampleRejoin | shorts.py:58-73 | For `"Believe it! Never give up."`, the rejoined parts differ from the quote as written and equal it as intended. |
| Segmenter.ExampleBelieveIt | shorts.py:58-73 | `"Believe it! Never give up."` gives `["Believe it!!", "Never give up."]`. |
| Segmenter.ExampleMixedPunctuation | shorts.py:69 | `"Really?! Yes."` gives `["Really?!?", "Yes."]`: the first punctuation is appended, not the last. |
| Segmenter.ExampleEllipsis | shorts.py:60 | `"Wait... what?"` gives `["Wait....", "what?"]`: each dot of an ellipsis counts on its own. |
| Segmenter.ExampleNoPunctuation | shorts.py:58-73 | `"I will win"` gives `["I will win"]`. |
| Segmenter.ExampleOneSentence | shorts.py:58-73 | `"Done."` gives `["Done."]`. |
| Segmenter.ExampleEmpty | shorts.py:58-73 | `""` gives `[""]`. |
| Segmenter.ExampleTrailingSpace | shorts.py:66-70 | `"Hi. "` gives `["Hi..", ""]`: the last part is empty. |
| Compositor.CentreOffset | shorts.py:51 | The pasted span's middle lies on the canvas's middle, or half a pixel before it: `tw - 1 <= 2*offset + nw <= tw`. An exact fit gives offset 0. If `nw >= tw`, the offset is at most 0, offset + `nw` is at least `tw`, and the near overhang exceeds the far one by 0 or 1. If `nw <= tw`, the near margin is the floor and the far margin the ceiling of `(tw - nw)/2`; they sum to `tw - nw` and differ by at most 1. |
| Compositor.PastePosition | shorts.py:49-52 | The centring bound holds on both axes. An image of exactly the target size is pasted at (0, 0). One at least as large as the canvas on both axes covers every canvas pixel. One no larger than the canvas lies wholly on it, and opposite margins differ by at most one pixel. |

## Left out

- `create_voice_file` (shorts.py:27-30) is a network text-to-speech call plus a file write.
- Audio duration probing (shorts.py:96-97) and the float `audio_time_offset` total (shorts.py:86, shorts.py:120) are left out. They need an audio library, and the total is never read.
- The encoder command lines and their process runs (shorts.py:102-115, shorts.py:130-142) are external processes whose exit codes are ignored. The text quoting inside the `drawtext` filter belongs to the encoder's filter syntax.
- The concat manifest, the temp directories (shorts.py:17-20, shorts.py:77-78, shorts.py:123-126) and the logging setup (shorts.py:23-24) are file I/O. So is the logging call on line 71.
- The scale factor of `resize_and_pad` (shorts.py:39-47) is left out. It uses float division and `int()` truncation, so the resized size can be one pixel short of the target. The resized size is an input to the offset model instead. Whether it covers the target is the hypothesis of the covering clause of `Compositor.PastePosition`, not a proved fact.
- Image opening, resizing, creation and pasting are pixel work in a foreign library. Only the paste position is modelled.
- The random quote choice and the entry-point wiring (shorts.py:148-171) are left out.
- The catch-all error boundary (shorts.py:145-146) is left out. In the model, the only error the segmenter could raise is the `Result` failure, and `Divide` proves that it never happens.

## Findings

| source | as written | input that shows it | evidently intended | confidence | as-written member | corrected member |
|---|---|---|---|---|---|---|
| shorts.py:67-69 | The comment says the punctuation is "added back". The split already keeps it through the lookbehind, so line 69 writes it a second time. | `"Believe it! Never give up."` gives `["Believe it!!", "Never give up."]`. Rejoining with `" "` does not give the quote. | Each segment ends in its own punctuation once. Rejoining the segments with spaces gives the quote, as the "added back" comment on line 67 expects. | high; not executed | Segmenter.DivideRejoinFails | Segmenter.IntendedRejoins |
