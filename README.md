# sanitizeHtml, modelled and proved in Dafny

This project models `sanitizeHtml` from `src/components/sanitise.ts`. The
function is a blocklist sanitizer for the HTML-injection teaching app: it
runs twelve global regular-expression replacements over its input, in a
fixed order. Each one works on the output of the one before:

1. removes `<script …</script>` blocks (line 5);
2. removes double-quoted, single-quoted and unquoted `on…=` event-handler
   attributes (lines 6-8);
3. removes `javascript:` tokens (line 9);
4. removes `<iframe>`, `<object>` and `<embed>` blocks (lines 10-12);
5. rewrites `position: fixed` and `position: absolute` to
   `position:relative` (lines 13-14);
6. removes `top: <digits>` and `left: <digits>` (lines 15-16).

The preview pane that shows the sanitized and the raw markup side by side
(`src/components/PreviewPane.tsx`) is modelled only as far as which string
each pane receives.

The function is pure, so the model is made of datatypes, recursive
functions and lemmas:

- `text.dfy` (module `Text`): the character classes `\w`, `\d` and `\s`,
  ASCII case folding for the `i` flag, and literal and case-insensitive
  search.
- `patterns.dfy` (module `Patterns`): the six shapes of expression the
  function uses. Each is given twice:
  - as the language the expression denotes, read off its syntax;
  - as a deterministic matcher `MatchAt` anchored at the start of the
    remaining input.
- `matching.dfy` (module `Matching`): proves that `MatchAt` returns the
  longest prefix of the remaining input that is in the expression's
  language, or no match when no prefix is in it. That this prefix is the
  match JavaScript's backtracking engine returns is argued below, from the
  shape of the expressions; it is not itself a proved statement.
- `replace.dfy` (module `Replace`): `String.prototype.replace` with a global
  expression, as a left-to-right scan that resumes after each match in the
  input. It comes with a second, independent reading: find all leftmost
  non-overlapping matches first, then splice them out. The two readings are
  proved equal.
- `sanitise.dfy` (module `Sanitise`): the twelve rules in source order and
  the pipeline. Also totality on the empty string and identity on markup
  with nothing to match.
- `properties.dfy` (module `Properties`): what each step does to its input.
  This covers lengths, the rewrite, unclosed tags and letter case.
- `worked.dfy` (module `Worked`): general families of inputs that show the
  documented edge cases. These are:
  - a block-removal pass is not idempotent;
  - the handler expression has no word boundary;
  - the `javascript:` run swallows a closing quote;
  - a lone script block sanitizes to nothing.
- `preview.dfy` (module `Preview`): the two panes of the preview.

Matching follows JavaScript regular expressions without the `u` flag:

- `\w`, `\d` and `\b` are ASCII-only.
- The `i` flag equates an ASCII letter with its other case, and nothing
  else is relevant to these expressions.
- `\s` is the full ECMAScript white-space and line-terminator set.

In every expression here, each greedy quantifier is followed by a token its
class excludes, except the last one. The one group in the element
expression, `(?:(?!<\/tag>)<[^<]*)*`, and the `<\/tag>` after it both start
with `<`; only the lookahead tells them apart, and it sends the engine to
`<\/tag>` at the first closing tag after the opening one. `MatchAt` reads
this as a search for the first `</tag>`. So JavaScript's first match in
priority order is the longest prefix of the remaining input that is in the
expression's language, and that is what `Matching.MatchAtCorrect` proves
`MatchAt` computes.

The expressions of lines 6-8 have no word boundary, so they also match
inside longer words: `content=foo` loses `ontent=foo`
(`Worked.HandlerInsideWord`). The `fixed` rewrite of line 13 grows the text
by at most 3 characters per match, and the `absolute` rewrite of line 14
never grows it (`Properties.FixedStepGrowth`,
`Properties.AbsoluteStepNeverLengthens`).

## Model

| member | source | states |
|---|---|---|
| Sanitise.SanitizeHtml | src/components/sanitise.ts:2-16 | every expression needs a non-empty match, so the empty string is returned as the empty string; markup with nothing any rule could match is returned unchanged |
| Sanitise.Apply | src/components/sanitise.ts:5-16 | one `.replace(/re/g, r)` step: the empty string stays empty, and a step whose replacement is empty never lengthens its input |
| Sanitise.Pipeline | src/components/sanitise.ts:4-16 | the chain of replacements, each on the output of the one before: the empty string stays empty, and a chain of deleting steps never lengthens its input |
| Sanitise.PipelineWithoutMatch | src/components/sanitise.ts:4-16 | when no rule's expression matches anywhere in the input, the whole chain returns the input unchanged |
| Sanitise.CleanPassesThrough | src/components/sanitise.ts:4-16 | markup is returned unchanged when it contains none of the following anywhere: `<script`, `<iframe`, `<object`, `<embed`, `position`, `top` or `left` in any case; `on` in any case followed by word characters and `=`; `javascript:` |
| Sanitise.MatchLeads | src/components/sanitise.ts:5-16 | a match at an index begins with the text its expression starts with (`<tag`, `on…=`, `javascript:`, `position`, the property name), in the case the expression allows: lower-case `on` for lines 6-7 and lower-case `javascript:` for line 9, any case elsewhere |
| Sanitise.MatchStartsWithLead | src/components/sanitise.ts:5-16 | every match starts with its expression's first character, up to ASCII case |
| Sanitise.NotSuspiciousNoLead | src/components/sanitise.ts:5-16 | at an index where none of the leading texts occurs, no rule's leading text starts and no rule's expression matches |
| Patterns.MatchAt | src/components/sanitise.ts:5-16 | the anchored matcher of every expression: a match is non-empty and inside the remaining input; `Matching.MatchAtCorrect` gives its meaning |
| Patterns.ElementMatch | src/components/sanitise.ts:5 | the block expression of lines 5 and 10-12 matches a non-empty prefix of the remaining input; `Matching.ElementMatchCorrect` gives its meaning |
| Patterns.QuotedMatch | src/components/sanitise.ts:6-7 | the quoted-handler expressions match a non-empty prefix of the remaining input; `Matching.QuotedMatchCorrect` gives its meaning |
| Patterns.UnquotedMatch | src/components/sanitise.ts:8 | the unquoted-handler expression matches a non-empty prefix of the remaining input; `Matching.UnquotedMatchCorrect` gives its meaning |
| Patterns.JavascriptMatch | src/components/sanitise.ts:9 | the scheme expression matches a non-empty prefix of the remaining input; `Matching.JavascriptMatchCorrect` gives its meaning |
| Patterns.PositionMatch | src/components/sanitise.ts:13-14 | the `position` expressions match a non-empty prefix of the remaining input; `Matching.PositionMatchCorrect` gives its meaning |
| Patterns.OffsetMatch | src/components/sanitise.ts:15-16 | the `top`/`left` expressions match a non-empty prefix of the remaining input; `Matching.OffsetMatchCorrect` gives its meaning |
| Matching.MatchAtCorrect | src/components/sanitise.ts:5-16 | for every supported expression, `MatchAt` returns the longest prefix of the remaining input in the expression's language, or nothing when no prefix is in it |
| Matching.ElementMatchCorrect | src/components/sanitise.ts:5 | `<tag` in any case, not followed by a word character, then everything up to and including the first later `</tag>` in any case; no match without a closing tag |
| Matching.QuotedMatchCorrect | src/components/sanitise.ts:6-7 | lower-case `on`, one or more word characters, `=`, the quote, a value without that quote, and the closing quote; nothing without the closing quote |
| Matching.UnquotedMatchCorrect | src/components/sanitise.ts:8 | `on` in any case, one or more word characters, `=`, then the longest run of characters that are neither white space nor `>` |
| Matching.JavascriptMatchCorrect | src/components/sanitise.ts:9 | lower-case `javascript:` followed by the longest run of characters that are neither white space nor `>` |
| Matching.PositionMatchCorrect | src/components/sanitise.ts:13-14 | `position`, optional white space, `:`, optional white space and the keyword, all in any case |
| Matching.OffsetMatchCorrect | src/components/sanitise.ts:15-16 | the property name, optional white space, `:`, optional white space and the longest run of digits, in any case |
| Replace.ReplaceFrom | src/components/sanitise.ts:4-16 | the scan of a global replace from an index on: with an empty replacement, its output is no longer than the input left from that index |
| Replace.ReplaceAll | src/components/sanitise.ts:4-16 | `s.replace(/re/g, r)`: the empty string stays empty, and with an empty replacement the output is no longer than the input; `Replace.ReplaceAllIsSplice` gives its meaning |
| Replace.ReplaceAllIsSplice | src/components/sanitise.ts:4-16 | the left-to-right scan of a global replace equals putting the replacement in place of the leftmost non-overlapping matches, which are ordered and inside the input |
| Replace.MatchesAreLeftmost | src/components/sanitise.ts:4-16 | the matches found are, one after the other, the first index at or after the previous match's end where the expression matches |
| Replace.LeftmostUnique | src/components/sanitise.ts:4-16 | there is only one such sequence of leftmost matches |
| Replace.LeftmostAreMatches | src/components/sanitise.ts:4-16 | every span found is a match of the expression at its start, of the length the expression gives there |
| Replace.ReplaceWithoutMatch | src/components/sanitise.ts:4-16 | a replace whose expression matches nowhere returns its input |
| Replace.ReplaceLength | src/components/sanitise.ts:4-16 | the output length is the input length minus the matched text plus one replacement per match |
| Replace.DeletionRemovesSpans | src/components/sanitise.ts:5-12 | a replace with the empty string deletes the matched spans and keeps the rest in order; it shortens its input exactly when something matches |
| Replace.ReplaceLengthBound | src/components/sanitise.ts:13-14 | when every match is at least `min` long, the output is at most the input length plus the number of matches times the replacement length minus `min` |
| Replace.ReplaceNeverLengthens | src/components/sanitise.ts:13-14 | a replacement no longer than any match never lengthens the text |
| Replace.ReplaceCopies | src/components/sanitise.ts:4-16 | over a stretch where nothing matches, the scan copies the input unchanged |
| Replace.ReplaceOneMatch | src/components/sanitise.ts:4-16 | with a single match in the input, the output is the text before it, the replacement and the text after it |
| Replace.DeleteOneMatch | src/components/sanitise.ts:5-12 | with a single match in the input, a deleting replace returns the text before the match followed by the text after it |
| Replace.ReplaceWhole | src/components/sanitise.ts:4-16 | a match covering the whole input leaves only the replacement |
| Properties.StepReplacesLongestMatches | src/components/sanitise.ts:5-16 | each step replaces the leftmost non-overlapping places where its expression matches, each span the longest prefix in the expression's language, which is JavaScript's match by the argument above, and keeps everything else |
| Properties.DeletionStep | src/components/sanitise.ts:5-12 | a deleting step removes its matches and keeps the rest in order; it is the identity exactly when nothing matches and shortens its input otherwise |
| Properties.DeletingRules | src/components/sanitise.ts:5-16 | every rule deletes except the two `position` rewrites (lines 13 and 14), which put `position:relative` in place |
| Properties.PositionMatchLength | src/components/sanitise.ts:13-14 | a `position` match is at least as long as `position:` followed by the keyword |
| Properties.PositionMatchesAtLeast | src/components/sanitise.ts:13-14 | the same bound, for every input the matcher is given |
| Properties.RewriteStep | src/components/sanitise.ts:13-14 | a `position` step puts exactly `position:relative` in place of each match and keeps everything else |
| Properties.AbsoluteStepNeverLengthens | src/components/sanitise.ts:14 | the `absolute` rewrite never lengthens the text |
| Properties.FixedStepGrowth | src/components/sanitise.ts:13 | the `fixed` rewrite lengthens the text by at most 3 characters per match |
| Properties.StepNeverLengthens | src/components/sanitise.ts:5-16 | every step except the `fixed` rewrite of line 13 returns text no longer than its input |
| Properties.UnclosedTagKept | src/components/sanitise.ts:5 | with no closing tag anywhere, an element step leaves its input unchanged, opening tag included |
| Properties.UnclosedTagSurvives | src/components/sanitise.ts:5 | an opening tag of a word tag name with no closing tag after it survives an element step together with everything after it, whatever blocks before it are removed: the output ends with the input from that tag on |
| Properties.CloseBeforeOpen | src/components/sanitise.ts:5 | a closing tag that starts before the end of an opening tag of the same word tag name ends at or before that opening tag, so a block match cannot reach into it |
| Replace.ReplaceKeepsTail | src/components/sanitise.ts:4-16 | when no match starts at or after an index and no match before it runs past it, the output of a replace ends with the input from that index on |
| Properties.IgnoresCase | src/components/sanitise.ts:5-16 | the case-insensitive expressions (lines 5, 8 and 10-16) match two strings that differ only in ASCII case the same way |
| Properties.ElementIgnoresCase | src/components/sanitise.ts:5-12 | an element match is the same in two strings that differ only in ASCII case |
| Properties.HandlerValueIgnoresCase | src/components/sanitise.ts:8 | the handler name, `=` and unquoted value after `on` are read the same in two strings that differ only in ASCII case |
| Properties.UnquotedIgnoresCase | src/components/sanitise.ts:8 | the unquoted-handler match is the same in two strings that differ only in ASCII case |
| Properties.PositionIgnoresCase | src/components/sanitise.ts:13-14 | the `position` match is the same in two strings that differ only in ASCII case |
| Properties.OffsetIgnoresCase | src/components/sanitise.ts:15-16 | the `top`/`left` match is the same in two strings that differ only in ASCII case |
| Properties.ColonValueIgnoresCase | src/components/sanitise.ts:13-16 | the white space, `:` and white space before a declaration's value are read the same in two strings that differ only in ASCII case |
| Properties.ValueStartIgnoresCase | src/components/sanitise.ts:13-16 | the name, white space, `:` and white space that open a declaration are found at the same place in two strings that differ only in ASCII case |
| Properties.QuotedNeedsLowerCaseOn | src/components/sanitise.ts:6-7 | the quoted-handler expressions are case-sensitive: every match starts with lower-case `on` |
| Properties.SchemeNeedsLowerCase | src/components/sanitise.ts:9 | the scheme expression is case-sensitive: every match starts with lower-case `javascript:` |
| Worked.BlockMatch | src/components/sanitise.ts:5 | `<tag`, a body without `<` that does not start with a word character, and `</tag>` form one block, whatever follows |
| Worked.NoOpenNoElement | src/components/sanitise.ts:5-12 | where no `<` occurs, no element block of lines 5 and 10-12 starts |
| Worked.BlockRemoved | src/components/sanitise.ts:5 | a block standing alone is removed entirely |
| Worked.SplitTagPass | src/components/sanitise.ts:5 | a block hidden inside an opening tag split in two is removed, and the halves join into a new opening tag |
| Worked.ElementPassNotIdempotent | src/components/sanitise.ts:5 | one element pass is not idempotent. `<scr<script>x</script>ipt>alert(1)</script>` and every input of that form (a word-character tag split into halves, the second non-empty, and bodies without `<` that do not start with a word character) becomes `<script>alert(1)</script>` in one pass, and only a second pass removes that block |
| Worked.LoneScriptSanitized | src/components/sanitise.ts:2-16 | a lone script block such as `<script>alert(1)</script>` sanitizes to the empty string |
| Worked.UnquotedWhole | src/components/sanitise.ts:8 | `on`, a word run, `=` and a value without white space or `>` are one unquoted-handler match |
| Worked.UnquotedStops | src/components/sanitise.ts:8 | `on` in any case, a word run, `=` and a value without white space or `>`, followed by text that does not continue the value, are one unquoted-handler match that ends where the value ends |
| Worked.HandlerRemoved | src/components/sanitise.ts:8 | the unquoted-handler pass deletes `on` in any case, a word run, `=` and the value up to white space, `>` or the end, and keeps the text on both sides: `<img src=x onerror=alert(1)>` and every input of that form becomes `<img src=x >` |
| Worked.HandlerInsideWord | src/components/sanitise.ts:8 | the handler expression has no word boundary: `content=foo`, and any word of that form whose prefix holds no `o` in any case, keeps only the text before `on` |
| Worked.SchemeRunsToGt | src/components/sanitise.ts:9 | the scheme match runs to the first white space or `>`, quotes included |
| Worked.SchemeRemoved | src/components/sanitise.ts:9 | the scheme pass deletes `javascript:` and the value up to the first white space or `>` and keeps the text on both sides, so `href="javascript:alert(1)">` and every input of that form becomes `href=">` |
| Text.RunIgnoresCase | src/components/sanitise.ts:8 | a run of `\w`, `\d`, `\s` or `[^>\s]` characters has the same length in two strings that differ only in ASCII case |
| Text.FindCiIgnoresCase | src/components/sanitise.ts:5 | the case-insensitive search for a closing tag finds the same index in two strings that differ only in ASCII case |
| Text.RunStopsAt | src/components/sanitise.ts:13-16 | a run known to stop at an index is the greedy run |
| Text.RunCovers | src/components/sanitise.ts:15-16 | every run of class characters is covered by the greedy run |
| Preview.Render | src/components/PreviewPane.tsx:19-34 | the protected pane receives the sanitized content; the raw pane is shown exactly when `showUnsafe` is set, and it shows the content unchanged |
| Preview.CleanPanesAgree | src/components/PreviewPane.tsx:19-33 | for markup with nothing to match, the protected and the raw pane show the same text |
| Preview.EmptyPanes | src/components/PreviewPane.tsx:19-33 | an empty editor gives empty panes |

## Left out

- The rest of the application is not part of this model, for these reasons:
  - `src/pages/CrudDemo.tsx` is a network client whose lists are driven by server responses.
  - Routing, layout, animation and UI state are not logic the sanitizer depends on.
  - The React rendering of the preview panes through `dangerouslySetInnerHTML` cannot be modelled.
- Whether the output is safe to render is not stated. Browser and HTML semantics are outside the model, and the expressions knowingly miss encoded and other vectors.
- The lesson strings of `src/components/lessons.ts:5-20` are not stated one by one. Each is an instance of general lemmas, which cover every input of its form:
  - the quoted handler of line 10: `Matching.QuotedMatchCorrect` and `Properties.StepReplacesLongestMatches`;
  - the `position`/`top`/`left` declarations of line 15: `Properties.RewriteStep` and `Matching.OffsetMatchCorrect`;
  - the plain markup of line 5, which contains none of the texts any expression starts with: the clause of `Sanitise.SanitizeHtml` that returns such markup unchanged;
  - the mixed-case unquoted handler `OnErRoR=alert&#40;1&#41;` of line 20: `Worked.HandlerRemoved`, with `on` = `On`, `w` = `ErRoR` and the text on both sides free of `o` in any case. The removal of the `<script>` block in the same string is not stated.
- Worked.ElementPassNotIdempotent: stated for every input of the split-tag form, with a word-character tag whose second half is non-empty, and bodies without `<` that do not start with a word character. With a body such as `abc` the `\b` after the opening tag fails and the pass leaves the input unchanged. The literal string `<scr<script>x</script>ipt>alert(1)</script>` is that form with tag `script`, halves `scr` and `ipt` and bodies `>x` and `>alert(1)`; it is not stated separately.
- Worked.LoneScriptSanitized: stated for every block body without `<` that does not start with a word character. The string `<script>alert(1)</script>` is one instance; it is not stated separately.
- Worked.HandlerInsideWord: stated for every word of the form prefix, `on`, word run, `=`, value, with a prefix that holds no `o` in any case. A prefix such as `on` would start the match earlier (`ononx=1` is removed whole), so the text before `on` is kept only when no match starts inside it. The string `content=foo` is one instance; it is not stated separately.
- Worked.HandlerRemoved: stated for text around the handler without `o` in any case, so that exactly one handler match is found. The string `<img src=x onerror=alert(1)>` is one instance; it is not stated separately.
- Worked.SchemeRemoved: stated for text around the scheme without a lower-case `j`, so that exactly one scheme match is found. The string `href="javascript:alert(1)">` is one instance; it is not stated separately.
- Properties.UnclosedTagSurvives: stated for tag names made of word characters, as all four tags of lines 5 and 10-12 are.
- Properties.StepNeverLengthens: excludes the `fixed` rewrite of line 13. That step can lengthen the text; `Properties.FixedStepGrowth` bounds by how much.
- Properties.IgnoresCase: excludes the quoted-handler and scheme expressions. They have no `i` flag, and `Properties.QuotedNeedsLowerCaseOn` and `Properties.SchemeNeedsLowerCase` state their case sensitivity instead.
- Matching.MatchAtCorrect: requires a `position` keyword that starts with a lower-case letter, as `fixed` and `absolute` do. With a keyword starting with white space, the `\s*` before it would have to give characters back, and the longest-prefix reading would not be exact.
- Text is modelled as sequences of Unicode scalar values rather than UTF-16 code units. No expression names a surrogate, and the negated classes treat both halves of a pair alike, so the matches are the same.
- Case-insensitive matching folds ASCII letters only. Without the `u` flag, JavaScript never folds a non-ASCII character onto the ASCII letters these expressions contain, so nothing is lost.
- Replacement strings with `$` patterns are not modelled. None of the twelve replacements uses one.
- No claim is made that `sanitizeHtml` is idempotent on the whole pipeline. Only the element steps are shown not to be.
