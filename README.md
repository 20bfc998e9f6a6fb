# Text conversions, modelled in Dafny

This project models the `TextConverter` class of `library/TextConverter.py`. The class is a collection of text transforms plus a per-transform history log:

- reversal, the upside-down flip and the "enchanting" glyph substitution;
- case switching, leetspeak, Pig Latin and the Caesar cipher;
- Morse code and binary code points;
- the text shadow and the emoticon substitution;
- the statistics of `nerd_mode`;
- the two random transforms, scramble and zalgo;
- `save_result`, which appends a result to the history file of its mode.

Each pure transform is a Dafny function. Lemmas state what the transform does: the inverse it has, the characters it keeps, its length, and how it treats case. `caesar_cipher` builds its output in a loop, so it is a method proved equal to the function. The history store is a class whose `logs` map stands for the files on disk.

Modules:

| module | holds |
|---|---|
| `Errors` | `Option`, `Result` and the three Python exceptions the code can raise |
| `PyStr` | the parts of Python's `str` that the transforms use: slicing reversal, `upper`/`lower`, `split(sep)`, `join`, `replace`, `split()` |
| `Glyphs` | `reverse_text`, `flipUD`/`text_flip`, `enchant_text` |
| `Casing` | `case_switch`, `leetspeak`, `piglatin` |
| `Caesar` | `caesar_cipher` |
| `Encodings` | `morse_code`, `binary_text` |
| `Layout` | `text_shadow`, `text_to_emoticons` |
| `Analysis` | `nerd_mode` |
| `Randomised` | `scramble_text`, `zalgo_text` |
| `History` | `history_files`, `save_result`, the `TextConverter` state |

`Encodings.MorseCode` uses the Morse table with the comma keyed by ","; the table as written, which keys it by ", ", is kept as `Encodings.MorseCodeDictAsWritten` (see "## Findings").

Python's case mapping, `isalpha`, `isupper` and `isspace` are restricted to ASCII here. Every other character counts as caseless, non-alphabetic and non-blank, and passes through unchanged.

## Edge cases of the code

The model follows these behaviours of the code:

- `leetspeak("Elite")` is `"31i73"`, because `l` becomes `1`.
- The `enchant_text` table leaves out only p, x and y; r and v are in it.
- `piglatin("")` raises `IndexError` on `text[0]`.
- `binary_text("")` is the empty string, not one empty token.

## Model

| member | source | states |
|---|---|---|
| Glyphs.ReverseTextInvolution | library/TextConverter.py:45-46 | reversing twice gives the text back; the reversed text has the same length and holds the character from the mirrored position at each index |
| Glyphs.ReverseText | library/TextConverter.py:45-46 | `reverse_text`, the step -1 slice; what it does is stated by Glyphs.ReverseTextInvolution |
| PyStr.ReverseLaws | library/TextConverter.py:45-46 | `[::-1]` is an involution and turns a concatenation around |
| Glyphs.FlipMap | library/TextConverter.py:39-42 | the `str.maketrans` table of `flipUD`: the i-th character of the first literal maps to the i-th of the second and every other character has no entry; spot checks in Glyphs.FlipShiftedLetters, FlipShiftedDigits, FlipShiftedMarks |
| Glyphs.FlipUD | library/TextConverter.py:38-43 | `flipUD`: translate through the table, then reverse; stated by Glyphs.FlipPositions and Glyphs.FlipLaws |
| Glyphs.TextFlip | library/TextConverter.py:48-49 | `text_flip` is `flipUD`; stated by Glyphs.FlipPositions |
| Glyphs.FlipPositions | library/TextConverter.py:38-49 | `text_flip` keeps the length; position i holds the table glyph of the character at the mirrored position, and a character without an entry passes through unchanged |
| Glyphs.FlipLaws | library/TextConverter.py:38-43 | translating and reversing commute; flipping a concatenation flips both parts and swaps them |
| Glyphs.FlipShiftedLetters | library/TextConverter.py:40-41 | the table pairs 'X' with ⅄, 'Y' with Z and 'Z' with ⇂ |
| Glyphs.FlipShiftedDigits | library/TextConverter.py:40-41 | '1', '2' and '0' get ᘕ, Ԑ and · (each digit gets its successor's glyph) |
| Glyphs.FlipShiftedMarks | library/TextConverter.py:40-41 | '.', '!' and '?' get ˋ, ¿ and a backslash; the parentheses swap |
| Glyphs.EnchantMap | library/TextConverter.py:52-55 | the `str.maketrans` table of `enchant_text`: a-z and A-Z without p, x, y map to the glyphs of line 54; the ten digits and the marks .,!?"'()[]{} map to themselves; every other character has no entry; stated by Glyphs.EnchantTableSkipsRewritten, EnchantCharIgnoresCase, EnchantTableAvoidsReplaced, EnchantKeeps |
| Glyphs.EnchantText | library/TextConverter.py:51-57 | `enchant_text`: translate, then the six `replace` calls in order; stated by Glyphs.EnchantPerCharacter |
| Glyphs.EnchantPerCharacter | library/TextConverter.py:51-57 | translate followed by the six `replace` calls equals substituting each character by its own glyph, one after the other |
| Glyphs.ReplaceChainAppend | library/TextConverter.py:57 | the replace chain distributes over concatenation |
| Glyphs.ReplaceChainOne | library/TextConverter.py:57 | on one character the chain gives `!¡` for p/P, two vertical bars for y/Y, space + U+0307 + `/` for x/X, and the character otherwise |
| Glyphs.EnchantTableAvoidsReplaced | library/TextConverter.py:52-55 | no glyph of the translate table is rewritten by the replace chain |
| Glyphs.EnchantTableSkipsRewritten | library/TextConverter.py:53 | p, P, y, Y, x and X have no entry in the translate table |
| Glyphs.EnchantGlyphOne | library/TextConverter.py:51-57 | what the pipeline makes of one character is that character's glyph |
| Glyphs.EnchantIgnoresCase | library/TextConverter.py:53-54 | an upper-case letter is enchanted like its lower-case form |
| Glyphs.EnchantCharIgnoresCase | library/TextConverter.py:53-54 | the table gives an upper-case letter the glyph of its lower-case form |
| Glyphs.EnchantKeeps | library/TextConverter.py:53-54 | digits, and characters neither in the table nor among p, x, y, come out unchanged |
| Casing.CaseSwitch | library/TextConverter.py:59-65 | succeeds exactly when the lower-cased mode is "upper" or "lower" and otherwise raises ValueError; a result keeps the length and the letters up to case |
| Casing.CaseSwitchModes | library/TextConverter.py:59-65 | the default mode upper-cases; the mode is compared case-insensitively; "upper" leaves no lower-case letter and "lower" no upper-case one |
| Casing.CaseSwitchExamples | library/TextConverter.py:59-65 | "Hello" in both modes; an unknown mode fails |
| Casing.Leetspeak | library/TextConverter.py:67-69 | `leetspeak`: lower-case the text, then map each character through `leet_dict` with the character itself as default; the result keeps the length; the values are stated by Casing.LeetspeakLaws |
| Casing.LeetChar | library/TextConverter.py:68-69 | `leet_dict.get(char, char)`: a, e, l, o, t become 4, 3, 1, 0, 7 and every other character is kept; stated by Casing.LeetspeakLaws |
| Casing.LeetspeakLaws | library/TextConverter.py:67-69 | a, e, l, o and t in either case become 4, 3, 1, 0 and 7; the result has no upper-case letter and none of a, e, l, o, t; every other lower-cased character is kept; the transform ignores case and is idempotent |
| Casing.LeetspeakExample | library/TextConverter.py:67-69 | "Elite" becomes "31i73" |
| Casing.PigLatin | library/TextConverter.py:74-79 | fails with IndexError exactly on the empty text; otherwise it appends "way" after a leading vowel, or moves the first character to the end and adds "ay" |
| Casing.PigLatinCharacters | library/TextConverter.py:74-79 | the result holds the text's characters plus the suffix and nothing else, and ends in the suffix |
| Casing.PigLatinExamples | library/TextConverter.py:74-79 | "apple" becomes "appleway", "pig" becomes "igpay"; "a" and "wa" both become "away" |
| Caesar.ShiftChar | library/TextConverter.py:84-88 | one character keeps its case class, and a non-letter is unchanged; which letter a shift yields is stated by Caesar.ShiftCharRotates |
| Caesar.CaesarCipher | library/TextConverter.py:81-89 | the loop builds exactly the per-character cipher of the text |
| Caesar.Caesar | library/TextConverter.py:81-89 | `caesar_cipher` as a function of the text and shift: the length is kept; stated by Caesar.CaesarLaws, CaesarRotates, CaesarExamples, and Caesar.CaesarCipher is proved equal to it |
| Caesar.ShiftCharCompose | library/TextConverter.py:86 | two shifts of a character make one shift by their sum |
| Caesar.CaesarLaws | library/TextConverter.py:81-89 | shifts compose additively, a multiple of 26 changes nothing, and shifting by s then by -s restores the text, for negative s too |
| Caesar.ShiftCharNext | library/TextConverter.py:84-88 | a shift by 1 moves a letter to the next one of its alphabet, with z to a and Z to A, and keeps every other character |
| Caesar.ShiftCharRotates | library/TextConverter.py:84-88 | a shift by any integer s, negative ones included, is s % 26 steps to the next letter |
| Caesar.CaesarRotates | library/TextConverter.py:81-89 | every character of the cipher text is its plain character stepped shift % 26 letters on |
| Caesar.CaesarExamples | library/TextConverter.py:81-89 | "xyz" by 3 is "abc" and "abc" by -1 is "zab": the alphabet wraps round both ways |
| Caesar.CaesarMixedExample | library/TextConverter.py:81-89 | "Hi, Zed!" by 1 is "Ij, Afe!": both cases move on, Z wraps to A, punctuation and blanks are kept |
| Caesar.NonAsciiLetterMangled | library/TextConverter.py:84-86 | the code as written agrees with the model on ASCII, but turns the letter 'é' into 'g' even for shift 0, so a round trip loses it |
| Randomised.Scramble | library/TextConverter.py:71-72 | for any numbers the generator may draw, the result is a rearrangement of the text: same length, same multiset of characters |
| Randomised.ScrambleReachesEveryArrangement | library/TextConverter.py:71-72 | every rearrangement of the text is the result for some draw |
| Randomised.Zalgo | library/TextConverter.py:97-99 | the result is twice as long; position 2i holds the drawn mark of `zalgo_chars` and position 2i+1 the i-th character |
| Randomised.ZalgoRoundTrip | library/TextConverter.py:97-99 | dropping the even positions gives the text back |
| Randomised.ZalgoMarksCombine | library/TextConverter.py:98-99 | every inserted mark is a combining diacritical mark, U+0300..U+036F |
| Encodings.MorseTokenShape | library/TextConverter.py:102-109 | every token is made of dots and dashes |
| Encodings.MorseCodeSpaces | library/TextConverter.py:109 | a non-empty text gives exactly len - 1 spaces, and splitting at spaces yields one token per character |
| Encodings.MorseIgnoresCase | library/TextConverter.py:109 | lower- and upper-case text are encoded alike, by the corrected table and by the code as written |
| Encodings.MorseExamples | library/TextConverter.py:101-109 | "SOS" and "sos" become "... --- ..." |
| Encodings.MorseUnknownCharacterExample | library/TextConverter.py:101-109 | "a?b" becomes ".- ..--.. -..."; a character without a code ("a;b") leaves two spaces between its neighbours |
| Encodings.MorseCommaUnreachable | library/TextConverter.py:107-109 | the comma's entry is keyed by ", ", so a comma gets the empty token and no character ever gets "--..--" |
| Encodings.MorseKeysReachable | library/TextConverter.py:102-109 | with the comma keyed by "," (the table the rest of the model uses), every entry is reached by its one-character key, every other character is encoded as the code writes it, and "a,b" keeps its comma |
| Encodings.MorseCodeDictAsWritten | library/TextConverter.py:102-108 | `MORSE_CODE_DICT` as written, the comma keyed by ", "; its consequence is stated by Encodings.MorseCommaUnreachable |
| Encodings.MorseCodeDict | library/TextConverter.py:102-108 | the Morse table with the comma keyed by "," and every other entry as written; stated by Encodings.MorseKeysReachable |
| Encodings.MorseCodeAsWritten | library/TextConverter.py:101-109 | `morse_code` as written: the tokens of the upper-cased characters, the empty token for a character without a key, joined by single spaces |
| Encodings.MorseCode | library/TextConverter.py:101-109 | `morse_code` with the comma keyed by ","; stated by Encodings.MorseCodeSpaces, MorseIgnoresCase, MorseExamples |
| Encodings.MorseTokenAsWrittenShape | library/TextConverter.py:102-109 | every token of the code as written is made of dots and dashes |
| Encodings.MorseAsWrittenAgrees | library/TextConverter.py:101-109 | on a text without a comma the code as written and the corrected table give the same result |
| Encodings.MorseCodeAsWrittenSpaces | library/TextConverter.py:109 | the code as written gives exactly len - 1 spaces for a non-empty text, and splitting at spaces yields one token per character |
| Encodings.BinaryDigits | library/TextConverter.py:112 | `format(n, 'b')` is a non-empty string of binary digits without a leading zero, except for 0 |
| Encodings.BinaryDigitsValue | library/TextConverter.py:112 | the numeral denotes n |
| Encodings.BinaryDigitsLength | library/TextConverter.py:112 | the numeral has at most k digits exactly when n < 2^k |
| Encodings.Format08bMeaning | library/TextConverter.py:112 | a token denotes the code point, has at least eight digits, and has exactly eight exactly when the code point is below 256; from 256 on it is the plain numeral, starting with 1 |
| Encodings.Format08b | library/TextConverter.py:112 | `format(n, '08b')`: binary digits only; its value and width are stated by Encodings.Format08bMeaning |
| Encodings.BinaryText | library/TextConverter.py:111-112 | `binary_text`: the `08b` tokens of the code points joined by single spaces; stated by Encodings.BinaryRoundTrip |
| Encodings.BinaryRoundTrip | library/TextConverter.py:111-112 | decoding the output gives the text back, for every code point; a non-empty text splits into one token per character; the empty text gives "" |
| Layout.TextShadowLines | library/TextConverter.py:114-116 | read line by line, the result is the text's lines followed by the same lines indented |
| Layout.ShadowLines | library/TextConverter.py:115 | one shadow line per line of the text, each being the indent of offset spaces followed by that line |
| Layout.TextShadowCopies | library/TextConverter.py:114-116 | the result starts with the text; an offset of zero or less gives the text, a line break and the text |
| Layout.TextShadow | library/TextConverter.py:114-116 | `text_shadow`: the text, a line break, and its lines each indented, joined by line breaks; stated by Layout.TextShadowLines and TextShadowCopies |
| Layout.TextShadowDefault | library/TextConverter.py:114-116 | with the default offset 1 every shadow line is its line after one space; "hi" becomes "hi\n hi" |
| Layout.Indent | library/TextConverter.py:115 | `' ' * offset` consists of offset spaces only, and is empty for an offset below one |
| Layout.EmoticonsWords | library/TextConverter.py:134-137 | the words of the result are the text's words, each replaced by its emoticon or kept, in order |
| Layout.EmoticonsIdempotent | library/TextConverter.py:134-137 | converting the result again changes nothing |
| Layout.EmoticonsOfJoinedWords | library/TextConverter.py:136-137 | words joined by single spaces come out as their emoticons joined by single spaces |
| Layout.EmoticonLookup | library/TextConverter.py:135-137 | the lookup ignores case ("Hello", "WORLD") and keeps unknown words as written |
| Layout.EmoticonDict | library/TextConverter.py:135 | `emoticon_dict`: "hello" and "world" have an emoji and no other word has an entry; stated by Layout.EmoticonDictKeys |
| Layout.EmoticonDictKeys | library/TextConverter.py:135 | `emoticon_dict` has exactly the keys "hello" and "world", and neither emoji is a key |
| Layout.Emoticon | library/TextConverter.py:137 | `emoticon_dict.get(word.lower(), word)`; stated by Layout.EmoticonLookup and EmoticonsIdempotent |
| Layout.TextToEmoticons | library/TextConverter.py:134-137 | `text_to_emoticons`: the words of `split()`, each looked up in lower case with itself as default, joined by single spaces; stated by Layout.EmoticonsWords |
| Analysis.CounterCounts | library/TextConverter.py:142 | `Counter(text)` has a key for exactly the text's characters, each mapped to its number of occurrences |
| Analysis.Counter | library/TextConverter.py:142 | `Counter(text)` as a map from character to count; stated by Analysis.CounterCounts |
| Analysis.NerdMode | library/TextConverter.py:139-147 | `nerd_mode`: word count, character count and character frequencies; stated by Analysis.NerdModeFacts |
| Analysis.NerdModeFacts | library/TextConverter.py:139-147 | the character count is the length; the frequencies are the occurrence counts; the word count is zero exactly for an all-blank text and at most (len + 1) / 2 |
| PyStr.JoinSplit | library/TextConverter.py:115 | joining the pieces of a split at the same separator gives the text back |
| PyStr.SplitJoin | library/TextConverter.py:109 | splitting a join of separator-free pieces gives the pieces back |
| PyStr.WordsJoin | library/TextConverter.py:136-137 | `split()` of words joined by single spaces gives the words back |
| PyStr.WordsEmpty | library/TextConverter.py:140 | `split()` finds no word exactly when the text is all blanks |
| PyStr.CaseMappingLaws | library/TextConverter.py:60-63 | upper- and lower-casing are idempotent and each undoes the other up to case |
| PyStr.Upper | library/TextConverter.py:61 | `text.upper()` on ASCII: the length is kept, no lower-case letter remains, and every other character is kept |
| PyStr.Lower | library/TextConverter.py:63 | `text.lower()` on ASCII: the length is kept, no upper-case letter remains, and every other character is kept |
| PyStr.Split | library/TextConverter.py:115 | `text.split(sep)` for one character: at least one piece, and no piece holds the separator; inverse of join by PyStr.JoinSplit and SplitJoin |
| PyStr.Join | library/TextConverter.py:109 | `sep.join(parts)`: the pieces with the separator between neighbours; stated by PyStr.JoinSplit, SplitJoin, JoinSeparatorCount, WordsJoin |
| PyStr.Words | library/TextConverter.py:136 | `text.split()`: every piece is a non-empty run of non-blank characters; fixed for every text by PyStr.WordsAtBlank and WordsOfWord |
| PyStr.WordsAtBlank | library/TextConverter.py:136 | `split()` cuts at every blank: the words of a + blank + b are the words of a followed by the words of b, so leading, trailing and repeated blanks yield no empty word |
| PyStr.WordsOfWord | library/TextConverter.py:136 | a text that is one word splits into exactly that word |
| PyStr.WordsExample | library/TextConverter.py:136 | "a  b" splits into "a" and "b" |
| PyStr.Replace | library/TextConverter.py:57 | `s.replace(c, glyphs)` for one character; distributes over concatenation by PyStr.ReplaceAppend |
| History.HistoryFileExamples | library/TextConverter.py:14-30 | "reverse" and "emoticons" log to `<mode>_history.txt`; a mode outside the table has no file |
| History.HistoryFile | library/TextConverter.py:14-30 | `history_files[mode]`: each of the fifteen modes has the file `<mode>_history.txt` and any other mode has none; stated by History.HistoryFileExamples and HistoryPathsDistinct |
| History.HistoryPathsDistinct | library/TextConverter.py:12-33 | different modes log to different paths |
| History.JoinPath | library/TextConverter.py:33 | `os.path.join(folder, name)` with the POSIX separator: folder, "/", name; stated by History.HistoryPathsDistinct |
| History.AppendAllLines | library/TextConverter.py:34-35 | for results without a line break, a log read back line by line is its earlier lines followed by the appended results, in order |
| History.AppendAllConcat | library/TextConverter.py:34-35 | appending in two batches is appending once |
| History.TextConverter.constructor | library/TextConverter.py:11-12 | a new converter uses the folder "conversion-history" over the files already there |
| History.TextConverter.SaveResult | library/TextConverter.py:32-36 | a mode without a file raises KeyError and writes nothing; otherwise exactly that mode's file gains a line break and the result, and the confirmation names the path |
| History.SaveTwice | library/TextConverter.py:32-36 | for two results without a line break, saving them under two different modes extends each mode's log, read line by line, by its own result only |

## Findings

| source | as written | input that shows it | evidently intended | confidence | as-written member | corrected member |
|---|---|---|---|---|---|---|
| library/TextConverter.py:107 | the comma's Morse entry is keyed by the two-character string ", ", but the lookup uses one character | `morse_code("a,b")` gives ".-  -..." (the comma vanishes) | key "," so that "a,b" gives ".- --..-- -..." | not executed | Encodings.MorseCommaUnreachable | Encodings.MorseKeysReachable |
| library/TextConverter.py:84-86 | `isalpha()` accepts letters outside ASCII, which are then shifted against the ASCII base 97 or 65 | `caesar_cipher("é", 0)` gives "g", and shifting by 3 then by -3 also gives "g" | rotate only the ASCII letters and keep every other character, so that a round trip restores the text | not executed | Caesar.NonAsciiLetterMangled | Caesar.CaesarLaws |

## Left out

- `ascii_art` and `border_text` (library/TextConverter.py:91-95) only call the external `art.text2art` renderer.
- `qr_code` (library/TextConverter.py:125-132) is the external `qrcode` library plus writing a PNG image.
- `scroll_text` (library/TextConverter.py:118-123) is presentation only: console writes and `time.sleep`.
- The random number generator is not modelled. `Randomised.Scramble` takes the numbers `random.sample` draws, in the pool form a full-length sample uses. `Randomised.Zalgo` takes the indices `random.choice` draws.
- The file system is not modelled. The `os.makedirs` call in `__init__` (line 13) is left out. The append to a file (lines 34-35) becomes an update of the `logs` map; I/O errors are not modelled.
- History.HistoryFile: states the table as "each of the fifteen modes maps to `<mode>_history.txt`", which is what all fifteen entries of the dictionary say, rather than listing the entries one by one.
- History.TextConverter.SaveResult: the path is joined with "/" only; the Windows separator is not modelled.
- PyStr.Upper, PyStr.Lower: only ASCII letters change case. Python's full Unicode case mapping is library behaviour that is not modelled.
- PyStr.Words: `split()` treats only ASCII whitespace as blank. Python also splits on Unicode spaces such as U+00A0 and U+2028.
- Caesar.ShiftChar: `isalpha` and `isupper` are taken for ASCII letters only. The effect of the code on other letters is stated separately, under Findings.
- Analysis.NerdModeFacts: `Counter` and `dict` keep insertion order, but a Dafny `map` has no order, so the model does not state the order of the frequency table. The record's keys "Word Count", "Character Count" and "Character Frequency" become the fields of `NerdStats`.
- The enchanted output of x and X is space, U+0307 (combining dot above), '/', as the code writes it. Its rendering is not modelled.
