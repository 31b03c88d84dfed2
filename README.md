# Quijote de Krypton catalog script, modelled in Dafny

This project models the client-side logic of the library site "Biblioteca El
Quijote de Krypton" (`recursos/js/script.js`): a fixed catalog of five books,
the catalog page's search box and its genre and availability selectors, the
book lookup behind the detail page and the detail modal, the reading list kept
in browser storage under the key `dq_readlist` together with its badge and its
page, the dark-mode switch stored under `dq_theme`, and the HTML escaping
applied to the text fields of a book (title, author, genre, availability,
ISBN and description) before they are placed in markup; the cover path, the
year and the id are inserted into the markup without escaping.

Modules, one per component of the script:

- `Wrappers` (`wrappers.dfy`): the `Option` type used for lookups.
- `Strings` (`strings.dfy`): `escapeHtml` (`EscapeHtml`) with a decoder
  `Unescape` as its proved inverse, and models of the built-ins the filter
  uses on user text: `toLowerCase` (`Lower`, ASCII letters only), `trim`
  (`TrimStart`, `TrimEnd`, `Trim`, over the exact ECMAScript white-space and
  line-terminator code points) and `includes` (`Contains`).
- `Catalog` (`catalog.dfy`): the `Book` record, the `BOOKS` constant
  (`Books`), lookup by id (`Find`), the genre options (`Genres`, built on
  `Distinct`, the iteration order of a `Set`) and the filter predicate of
  `applyFilters` (`Matches`, `FilterBooks`, `ApplyFilters`).
- `ReadingList` (`reading_list.dfy`): the storage slot (`Stored`: absent,
  unparsable, or a list of ids), the class `Store` whose methods are
  `getReadingList`, `setReadingList`, `updateReadingListBadge`,
  `addToReadingList`, `removeFromReadingList` and `renderReadingList`, and the
  pure list functions they are specified by (`RemoveAll`, `AddId`, `Resolve`).
- `Theme` (`theme.dfy`): the class `Page` holding the `data-theme` attribute
  and the stored preference, its start-up rule and the button's toggle rule.

The search matches the trimmed, lower-cased query against the title, author
and genre joined by single spaces, so a query may run across two fields: the
lemma `Catalog.FilterAcrossFields` shows "orwell distop" finding "1984" while
none of its three fields contains it alone. The model follows the code in
this, not the looser reading "some field contains the query".

When the stored list is not empty but none of its ids names a catalog book,
`renderReadingList` shows neither the empty-list notice nor any entry; the
model keeps this (`Store.Render`: the notice appears exactly when the list is
empty).

## Model

| member | source | states |
|---|---|---|
| `Strings.EscapeHtml` | recursos/js/script.js:338-341 | The output never contains `<`, `>`, `"` or `'`, is never shorter than the input, and the empty string escapes to the empty string. |
| `Strings.EscapeEntities` | recursos/js/script.js:340 | `&`, `<`, `>`, `"` and `'` become exactly `&amp;`, `&lt;`, `&gt;`, `&quot;` and `&#39;`; any other character is copied as it is. |
| `Strings.EscapeRoundTrip` | recursos/js/script.js:340 | Escaping is lossless: decoding the five entities in the output gives back the input exactly. |
| `Strings.EscapeConcat` | recursos/js/script.js:340 | Escaping is done character by character: the escape of a concatenation is the concatenation of the escapes, so characters keep their order. |
| `Strings.EscapeIdentity` | recursos/js/script.js:340 | The output has the input's length if and only if the input has none of `& < > " '`, and such an input is copied unchanged. |
| `Strings.EscapeTag` | recursos/js/script.js:121-126 | A tag written in a book field (such as `<script>`) reaches the markup with both angle brackets as `&lt;` and `&gt;`. |
| `Strings.Lower` | recursos/js/script.js:168 | The lower-cased text has the same length and contains no capital ASCII letter; each capital `A`-`Z` becomes its lower-case letter (code point plus 32) at the same position, and every other character is kept in place. |
| `Strings.Contains` | recursos/js/script.js:173 | `includes` holds when the needle occurs at some position; the empty needle is found in every text and a text is found in itself. |
| `Strings.LowerSlice` | recursos/js/script.js:172 | Lower-casing commutes with taking a slice of the text. |
| `Strings.LeadingWhite` | recursos/js/script.js:168 | Every character before the returned position is white space and the character at it, if any, is not: the length of the longest white prefix. |
| `Strings.TrimStart` | recursos/js/script.js:168 | The result is the input after its longest white prefix, and does not itself start with white space. |
| `Strings.TrimEnd` | recursos/js/script.js:168 | The result is the prefix of the input left after dropping the trailing white space, and does not itself end with white space. |
| `Strings.Trim` | recursos/js/script.js:168 | The result is the slice of the input that starts right after its leading white space and is followed only by white space; it neither starts nor ends with white space, and an input that already does neither is returned unchanged. |
| `Strings.ContainsTooLong` | recursos/js/script.js:173 | `includes` is false for a needle longer than the text. |
| `Catalog.BooksUniqueIds` | recursos/js/script.js:8-65 | The five sample books have distinct ids. |
| `Catalog.Find` | recursos/js/script.js:194-199 | The lookup returns a catalog book with the requested id, and returns the not-found outcome exactly when no book has that id. |
| `Catalog.FindFirst` | recursos/js/script.js:194 | A found book stands at a catalog position before which no book has the requested id: the lookup returns the first match. |
| `Catalog.FindOwnId` | recursos/js/script.js:232-233 | In a catalog with unique ids, looking up any book's id returns that book. |
| `Catalog.FindExamples` | recursos/js/script.js:194-199 | Id 999 is not found; id 2 resolves to "1984". |
| `Catalog.Distinct` | recursos/js/script.js:161 | The result has no duplicates, holds exactly the elements of the input, and lists them in the order of their first appearance. |
| `Catalog.DistinctOfDistinct` | recursos/js/script.js:161 | A list without duplicates is returned unchanged by the de-duplication. |
| `Catalog.Genres` | recursos/js/script.js:161 | The genre selector offers each genre once, a genre exactly when some book has it, in the order of the first book that has it. |
| `Catalog.GenresOfBooks` | recursos/js/script.js:161-165 | For the sample catalog the options are its five genres in catalog order. |
| `Catalog.Haystack` | recursos/js/script.js:172 | The search text holds the title, one space, the author, one space and the genre, each at its fixed offset. |
| `Catalog.NormalizeQuery` | recursos/js/script.js:168 | The query used by the filter is the lower-cased inner text of the search box value, the slice that starts after its leading white space and ends before its trailing white space; it has no capital letter and no white space at either end, and is empty exactly when the value is blank. |
| `Catalog.Matches` | recursos/js/script.js:171-176 | A kept book has the selected genre and availability when one is selected and search text containing the query; with nothing entered every book is kept. |
| `Catalog.ApplyFilters` | recursos/js/script.js:167-178 | The shown books are an order-preserving subsequence of the catalog, and a book is shown if and only if it passes the filters with the trimmed, lower-cased search box value. |
| `Catalog.FilterBooks` | recursos/js/script.js:171-176 | The result is an order-preserving subsequence of the catalog, and a book is in it if and only if the query is empty or occurs in its lower-cased search text, the genre is empty or equal, and the availability is empty or equal. |
| `Catalog.FilterCount` | recursos/js/script.js:171-176 | Each matching book occurs in the result as many times as in the catalog, and any other book does not occur in it. |
| `Catalog.FilterAllMatch` | recursos/js/script.js:171-176 | When every book passes the three conditions the whole catalog is returned in order. |
| `Catalog.FilterNothing` | recursos/js/script.js:168-176 | A blank (empty or all white space) query with no genre and no availability shows the whole catalog in order. |
| `Catalog.FilterIdempotent` | recursos/js/script.js:171-176 | Filtering the result again with the same criteria returns it unchanged. |
| `Catalog.FilterCommute` | recursos/js/script.js:171-176 | Two filters applied one after the other give the same result in either order. |
| `Catalog.FilterConcat` | recursos/js/script.js:171-176 | Filtering is element by element: the filter of a concatenation is the concatenation of the filters. |
| `Catalog.FilterNoneMatch` | recursos/js/script.js:171-176 | When no book passes, the result is empty (the empty state, not an error). |
| `Catalog.FilterSingle` | recursos/js/script.js:171-176 | When exactly one book passes, the result is that book alone. |
| `Catalog.FilterDistopia` | recursos/js/script.js:169-176 | Filtering the sample catalog by genre "Distopía" yields exactly "1984". |
| `Catalog.FoundInAuthor` | recursos/js/script.js:172-173 | A query that occurs in a book's lower-cased author occurs in its lower-cased search text, just after the title and one space. |
| `Catalog.AuthorGenreSpan` | recursos/js/script.js:172 | The search text runs from the end of the author through a single space into the start of the genre. |
| `Catalog.NormalQuery` | recursos/js/script.js:168 | A query without white space at its ends and without capital ASCII letters is used as typed. |
| `Catalog.SearchFinds` | recursos/js/script.js:168-173 | A normalised query that occurs in a book's lower-cased search text keeps that book in the result. |
| `Catalog.FilterCortazar` | recursos/js/script.js:168-173 | The lower-case, accented query "cortázar" finds "Rayuela" through its author. |
| `Catalog.FilterAcrossFields` | recursos/js/script.js:172-173 | The query "orwell distop" finds "1984" through the joined text although neither its title, its author nor its genre contains it. |
| `Catalog.OrwellDistopFinds1984` | recursos/js/script.js:168-173 | The search box value "orwell distop" alone keeps "1984" in the result. |
| `Catalog.OrwellDistopSpansFields` | recursos/js/script.js:172 | For a book by "George Orwell" in "Distopía" the query "orwell distop" occurs in the search text, spanning the space between author and genre. |
| `Catalog.OrwellDistopInNoField` | recursos/js/script.js:172-173 | No single field of "1984" contains "orwell distop". |
| `ReadingList.RemoveAll` | recursos/js/script.js:288 | The result holds no occurrence of the id, every other id as many times as before, in the same relative order. |
| `ReadingList.RemoveAbsent` | recursos/js/script.js:288 | Removing an id that is not in the list changes nothing. |
| `ReadingList.RemoveIdempotent` | recursos/js/script.js:287-290 | Removing an id twice gives the same list as removing it once. |
| `ReadingList.RemoveKeepsNoDuplicates` | recursos/js/script.js:287-290 | Removing from a duplicate-free list leaves it duplicate-free. |
| `ReadingList.AddId` | recursos/js/script.js:277-286 | After adding, the id is in the list; the list is unchanged exactly when the id was already there, and otherwise it is the old list with the id appended. |
| `ReadingList.AddOnce` | recursos/js/script.js:277-286 | Adding to a duplicate-free list keeps it duplicate-free, leaves the id in it exactly once, and a second add changes nothing. |
| `ReadingList.Resolve` | recursos/js/script.js:296-298 | The shown books are catalog books whose ids are in the list, at most one per list entry; when every id names a book, the i-th book shown has the i-th id. |
| `ReadingList.ResolveStep` | recursos/js/script.js:296-298 | The entries for a suffix of the list are the entry for its first id, if that id names a book, followed by the entries for the rest. |
| `ReadingList.RenderStep` | recursos/js/script.js:296-298 | One pass of the rendering loop adds the book of the next id, when that id names one, to the books already shown, and the rest of the list shows the rest. |
| `ReadingList.ResolveShows` | recursos/js/script.js:296-298 | With unique catalog ids, a catalog book is shown if and only if its id is in the list. |
| `ReadingList.PruneDangling` | recursos/js/script.js:297-298 | Dropping an id that names no catalog book does not change what the list page shows. |
| `ReadingList.Store.constructor` | recursos/js/script.js:346-347 | At page load the stored value is kept as found and a badge, where the page has one, shows the list length. |
| `ReadingList.Store.Get` | recursos/js/script.js:273-275 | The read returns the stored ids, and the empty list when the key is absent or its value is unparsable. |
| `ReadingList.Store.UpdateBadge` | recursos/js/script.js:319-323 | A badge, where the page has one, shows the current list length; no badge is created. |
| `ReadingList.Store.Set` | recursos/js/script.js:276 | The list is stored so that the next read returns it exactly, and the badge count equals its length. |
| `ReadingList.Store.Add` | recursos/js/script.js:277-286 | An id already present yields the "already in list" outcome and writes nothing; otherwise the stored list is the old list with the id appended; a duplicate-free list stays duplicate-free and the badge follows. |
| `ReadingList.Store.Remove` | recursos/js/script.js:287-290 | The stored list is the old list with every occurrence of the id removed, written whether or not the id was present; the badge follows. |
| `ReadingList.Store.Render` | recursos/js/script.js:291-298 | The empty-list notice appears exactly when the list is empty, and the entries are the catalog books named by the stored ids, in list order, dangling ids skipped. |
| `Theme.Toggled` | recursos/js/script.js:82-89 | Dark becomes unset, anything else becomes dark, and the value stored is "dark" exactly when the new state is dark and "light" otherwise. |
| `Theme.ToggleTwice` | recursos/js/script.js:82-89 | Two clicks restore a page that was dark or had no theme attribute. |
| `Theme.Page.constructor` | recursos/js/script.js:76-79 | A stored "dark" preference makes the page dark at start-up; otherwise the markup's attribute stays. |
| `Theme.Page.Toggle` | recursos/js/script.js:80-91 | A click flips dark and not-dark and leaves the stored preference matching the new state. |

## Left out

- Markup construction, `innerHTML`, card and modal templates, image fallbacks (recursos/js/script.js:113-149, 201-219, 237-257, 299-312): presentation only; the model returns the sequence of books a view shows.
- Event wiring, click delegation, the hamburger menu and modal dismissal: browser event plumbing with no state of the model's kind.
- `alert`, `location.href`, `encodeURIComponent` and `URLSearchParams`: browser services; the two alerts of `addToReadingList` are the `AddOutcome` values, and the detail page's id is a parameter of `Find`.
- `JSON.parse`, `JSON.stringify` and `localStorage`: the storage key is the `slot` field, whose value is either absent, unparsable text (`Corrupt`) or a list of integer ids; stored JSON that parses to something other than a list of numbers is not modelled.
- `Strings.Lower`: lower-cases the ASCII letters only; `toLowerCase` also lower-cases other scripts' capitals (such as `Á`), which the model leaves unchanged.
- `Strings.EscapeHtml`: takes a string; the source's `!str` branch also maps `null`, `undefined` and other falsy non-strings to the empty string, and non-string arguments are converted with `String`, neither of which the model covers. JavaScript strings are UTF-16 code units while the model's characters are Unicode scalar values, which makes no difference to the five replaced characters.
- The contact and loan forms (recursos/js/script.js:355-382): their only logic is a non-empty check after trimming before an alert.
- `initIndexHighlights` (recursos/js/script.js:328-333): it renders the first four books, a fixed slice with no further rule.
