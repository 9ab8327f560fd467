# C-flashcards deck loader, modelled in Dafny

C-flashcards is a small flashcard program. It reads a deck file in which every
line holds one card: the front, a horizontal tab, then the back. Lines starting
with `#` are comments. Lines without a tab are skipped without complaint. The
loader `load_cards` in `main.c` reads the file with `getline`. It splits each
accepted line at its first tab and copies the two halves with `strdup`. Then it
appends a `Card{front, back}` to the global array `cards` and increments the
global counter `total_cards`.

This project models that loader and proves what it does.

- `deck_format.dfy`, module `DeckFormat`, holds the pure part:
  - the `Card` record;
  - `IndexOf`, the `strchr` search;
  - `CString`, what the C string functions see of a buffer: everything up to
    the first NUL byte;
  - `ParseLine`, the card a single line yields, if any;
  - `Lines`, how successive `getline` calls cut a file's text into lines;
  - `Parse`, the cards of a sequence of lines;
  - `Format` and `Serialize`, which write cards back as deck lines;
  - lemmas about all of these.
- `card_store.dfy`, module `CardStore`, holds the imperative part. The two
  globals become the fields `cards` and `totalCards` of a class `Flashcards`.
  `LoadCards` is the `while` loop of `load_cards` and is proved against
  `Parse` and `Lines`. `LoadLine` is one pass of its body and is proved
  against `ParseLine`.

Each character stands for one byte of the file. No encoding is interpreted,
as in the C code.

Three details of the code shape the model:

- The back is cut at its first `\n`. For a line as `getline` returns it,
  that is the trailing newline (`LineRoundTrip`).
- Only `\n` is removed, so a `\r` before it stays at the end of the back
  (`CardRoundTrip`, which also keeps tabs and spaces in the back).
- Where `load_cards` calls `exit(1)` on a file it cannot open, `LoadCards`
  returns `false` and leaves the storage unchanged.

## Model

| member | source | states |
|---|---|---|
| `DeckFormat.IndexOf` | main.c:48 | `strchr`: no result exactly when the character does not occur; otherwise the index of an occurrence with none before it |
| `DeckFormat.IndexOfFirst` | main.c:48 | the search returns the first occurrence, whatever follows it |
| `DeckFormat.CString` | main.c:54-55 | `strdup` copies the buffer up to, not including, its first NUL byte: a NUL-free prefix that ends at the end of the buffer or just before a NUL, and the whole buffer when it holds none |
| `DeckFormat.Before` | main.c:57-60 | cutting at the first `\n` gives a prefix free of `\n` that ends at the end of the text or just before a `\n` |
| `DeckFormat.ParseLine` | main.c:43-60 | a line yields a card exactly when it does not start with `#` and a tab occurs in it before any NUL byte; a comment line with a tab yields none |
| `DeckFormat.ParseLineFields` | main.c:48-60 | the front is what precedes the first tab and holds no tab; the back follows that tab and runs to the end of the line or to the first `\n`, which it does not hold |
| `DeckFormat.ParseLineAt` | main.c:44-60 | on a line with no NUL and no `#` at its start, the card is the text before the first tab and the text after it, cut at the first `\n` |
| `DeckFormat.Parse` | main.c:41-66 | at most one card per line; no front holds a tab and no back holds a newline |
| `DeckFormat.ParseAppend` | main.c:41-66 | the cards of two runs of lines are the cards of the first followed by the cards of the second |
| `DeckFormat.ParseStep` | main.c:41-66 | reading one more line adds that line's card, or nothing, at the end |
| `DeckFormat.ParseLength` | main.c:65 | the number of cards equals the number of lines that do not start with `#` and hold a tab |
| `DeckFormat.CardPosition` | main.c:62-65 | the card of an accepted line is stored at the index equal to the number of accepted lines before it, so cards keep file order |
| `DeckFormat.CardOrigin` | main.c:41-66 | every card comes from an accepted line, the one with exactly as many accepted lines before it as cards before the card |
| `DeckFormat.FindLine` | main.c:41-66 | for each k below the count of accepted lines there is an accepted line with exactly k accepted lines before it |
| `DeckFormat.NextLineLength` | main.c:41 | `getline` returns a non-empty line with no `\n` before its last character, and a line followed by more text ends with `\n` |
| `DeckFormat.NextLineLengthOf` | main.c:41 | `getline` stops right after the first `\n` |
| `DeckFormat.Lines` | main.c:41 | successive `getline` calls return no line exactly for an empty file, and never more lines than the file has bytes; `LinesShape` fixes the split itself |
| `DeckFormat.LinesShape` | main.c:41 | the lines put back together give the file text; each is a line as `getline` returns it; all but the last end with `\n` |
| `DeckFormat.FirstLine` | main.c:41 | a line ending in `\n` at the start of the file is read on its own, and then the rest of the file is read |
| `DeckFormat.SplitAtTab` | main.c:48-55 | a line without NUL or `\n` that holds a tab and is no comment splits into a front and a back that rebuild it |
| `DeckFormat.LineRoundTrip` | main.c:51-60 | for an accepted line without NUL bytes: front, tab and back, followed by `\n` when the line ended with one, give back the original line |
| `DeckFormat.FormatParse` | main.c:51-60 | a card whose front is no comment and holds no tab, and whose sides hold no `\n` or NUL, written as a last line without `\n` reads back as itself |
| `DeckFormat.CardRoundTrip` | main.c:51-60 | such a card written as a `\n`-terminated line reads back as itself; later tabs, spaces and `\r` in the back are kept |
| `DeckFormat.FormattedLine` | main.c:41 | such a card written with its `\n` is exactly one `getline` line |
| `DeckFormat.DeckRoundTrip` | main.c:41-66 | a deck of such cards, written one line per card and loaded again, is the same deck |
| `DeckFormat.EmptyFront` | main.c:51-54 | a line starting with the tab gives a card with an empty front |
| `DeckFormat.EmptyBack` | main.c:55-60 | a line whose tab is followed by `\n` gives a card with an empty back |
| `DeckFormat.CommentsOnly` | main.c:44-45 | a file of comment lines gives no card, even if the comments hold tabs |
| `CardStore.Flashcards.constructor` | main.c:13-14 | storage starts with no cards and a count of zero |
| `CardStore.Flashcards.AddCard` | main.c:62-65 | the card goes to index `totalCards`, the count grows by one, and the cards stored before stay as they were |
| `CardStore.Flashcards.LoadLine` | main.c:43-65 | a comment line or a line without a tab leaves cards and count unchanged; any other line appends its card at index `totalCards` and counts it |
| `CardStore.Flashcards.LoadCards` | main.c:30-70 | the cards after loading are the cards before it followed by the cards of the file's lines, in file order; the count grows by the number of accepted lines; a file that cannot be opened changes nothing |

## Left out

- Opening, reading and closing the file (`fopen`, `getline`, `fclose`) are not modelled as I/O. The file is given as its text, and `Lines` states how `getline` cuts it into lines. A read error, which makes `getline` return -1 as at end of file, is not modelled.
- `LoadCards`: the `exit(1)` on a file that cannot be opened becomes a `false` result that leaves the storage unchanged. The process is not terminated, and the message to standard error is not modelled.
- Memory management is not modelled: `strdup`, `realloc` (including the unchecked failure of `realloc`), `free` and `freeCards` (main.c:18-27). Dafny sequences replace the heap array. The in-place writes of `'\0'` over the tab and the newline are modelled by their effect, which is taking prefixes and suffixes.
- `total_cards` is a `size_t`. Its wrap-around after 2^64 cards is not modelled, because no file of that size can be loaded.
- The `main` driver (main.c:72-89) prints usage and the first two cards. It reads `cards[0]` and `cards[1]` without checking `total_cards`, which is undefined behaviour for decks of fewer than two cards. That printing loop is not part of the loader and is not modelled.
- The SDL include (main.c:2) and the unused globals `current_card` and `flipped` (main.c:15-16) are not modelled, because nothing in the code uses them.
- Review navigation, flip handling, deck catalog discovery and position persistence are not modelled. `main.c` contains no code for them, so there is nothing to follow.
