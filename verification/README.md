# NMK extraction core in Dafny

NMK is a small Streamlit application that converts an Outlook `.pst` archive
into an Excel sheet with one row per e-mail. This project models its
extraction core:

- `clean_string`, the filter that drops control characters from text cells;
- `format_date_time`, which renders a timestamp as a UK date and time;
- `get_recipients`, which builds the To, CC and BCC strings;
- `generate_signature`, the duplicate-detection fingerprint;
- `process_folder`, the recursive walk of the folder tree that builds the
  rows and flags a message "Yes" when its signature was already seen.

The modules are:

| module | file | covers |
|---|---|---|
| `Base` | base.dfy | `Option`; `Read`, which is a reader call that either returns or raises; Python truthiness of a string; `sep.join` |
| `TextCleaning` | clean.dfy | `clean_string` |
| `Timestamps` | timestamps.dfy | `format_date_time`, together with the `strftime` renderings `%d/%m/%Y` and `%H:%M:%S` |
| `RecipientLists` | recipients.dfy | `get_recipients` |
| `Signature` | signature.dfy | `generate_signature` |
| `Walker` | walker.dfy | `process_folder` and the per-message extraction |
| `WalkProperties` | walk_properties.dfy | what the walk promises, stated against a reference listing that carries no state |

The archive is given as a value:

- A `Folder` holds an optional name, its messages and its sub-folders.
- A `Message` holds each field read as `Ok(value)` or `Fails`, where `Fails` is a read that raised.
- The recipient enumeration is a sequence of slots. A slot is either an entry whose name and address were read, or a position where one of those reads raised. The entry's type is a read of its own, which may also raise.

Two calls go into code outside the model, and both are parameters:

- `strptime` with the format `"%Y-%m-%d %H:%M:%S.%f"` is a function that returns `None` where Python raises `ValueError`.
- The MD5 hex digest is a function `string -> string`. It is never assumed to be collision-free.

The walk is written once for any per-message step, as `Walker.Steps`.
`Walker.SourceSteps` is the program's own step: `ExtractRecord` with that
`strptime`, together with the digest. `Walker.Extract` is the call from
`main`: `process_folder(root, all_rows, "", set(), ...)`.

Three facts about NMK.py shape the model:

- `format_date_time` returns a `(date, time)` pair, and `(None, None)` for a falsy timestamp (NMK.py:25-26).
- `process_folder` keeps no count of its own; its only state is the row list and the set of seen signatures (NMK.py:84-139).
- When a recipient read raises, `get_recipients` keeps the entries appended before the exception (NMK.py:74-77).

## Model

| member | source | states |
|---|---|---|
| Base.JoinSnoc | NMK.py:77 | joining a list that had one element appended gives the old join, then the separator, then the new element; for a singleton it gives the element alone |
| TextCleaning.Clean | NMK.py:20-21 | the result holds only `\n`, `\r`, `\t` and characters at or above the space, and it is an order-preserving selection of the input |
| TextCleaning.CleanText | NMK.py:16-21 | `None` and `""` give `""`; any other text gives a kept-only, order-preserving selection of it |
| TextCleaning.CleanCountsKept | NMK.py:21 | the filter drops no kept character: each one occurs in the output exactly as often as in the input |
| TextCleaning.CleanIsUnique | NMK.py:21 | any order-preserving, kept-only selection of the input that keeps every occurrence of each kept character equals the filter's output, so the contract determines the filter |
| TextCleaning.CleanKeepsKept | NMK.py:21 | text made only of kept characters passes through unchanged |
| TextCleaning.CleanIdempotent | NMK.py:21 | filtering twice gives the same result as filtering once |
| TextCleaning.CleanTextIdempotent | NMK.py:16-21 | applying `clean_string` to its own output changes nothing, including for a falsy input |
| Timestamps.Pad | NMK.py:29 | a `%02d`/`%04d` field has exactly the requested width, holds only digits, and denotes the number it renders |
| Timestamps.DigitsUnique | NMK.py:29 | two digit strings of equal width that denote the same number are the same string |
| Timestamps.FieldsUnique | NMK.py:29 | a string that reads as the three given fields with the given separator is exactly their rendering |
| Timestamps.FormatDate | NMK.py:29 | `%d/%m/%Y` reads back as the instant's day, month and year: widths 2/2/4 with `/` at positions 2 and 5 |
| Timestamps.FormatTime | NMK.py:29 | `%H:%M:%S` reads back as the instant's hour, minute and second: widths 2/2/2 with `:` at positions 2 and 5 |
| Timestamps.FormatDateTime | NMK.py:23-41 | a falsy timestamp gives `(None, None)`; a datetime, or text that parses, gives a date and a time that read back as its fields; text that does not parse gives the text itself and an empty time, and only then is the time empty |
| RecipientLists.Display | NMK.py:56-63 | an entry is skipped exactly when both its name and its address are falsy; otherwise it renders as `name <email>`, as `email` or as `name`, and never as an empty string |
| RecipientLists.Enumerated | NMK.py:49-75 | the entries handled are, in order, the slots before the first one that raises; a slot raises when reading the entry, its name or its address raises, or when it is displayed and reading its type raises; the enumeration stops at that slot |
| RecipientLists.RoutedMembership | NMK.py:65-72 | a text is in the list for a type code exactly when some enumerated entry of that type renders as that text |
| RecipientLists.RoutedAppend | NMK.py:65-72 | routing keeps the enumeration order: the list for a concatenation is the concatenation of the lists |
| RecipientLists.SkippedEntry | NMK.py:62-72 | an entry of another type, or one with neither name nor address, leaves the list for a code unchanged; this covers type codes other than 1, 2 and 3 |
| RecipientLists.BlankEntryIgnored | NMK.py:56-65 | an entry with neither name nor address is passed over before its type is read, so it never ends the enumeration; removing it changes none of the lists |
| RecipientLists.GetRecipients | NMK.py:43-77 | the loop gives the `"; "`-joins of the To, CC and BCC routings of the entries before the first failing read |
| Signature.SignatureTextInjective | NMK.py:79-82 | when subject, date and time hold no bar character `U+007C`, equal hashed texts come only from equal subject, date, time and body |
| Signature.SignatureTextAmbiguous | NMK.py:81 | for any strings `a`, `b`, `c`: the subject `a`, a bar, `b` with date text `c` gives the same hashed text, and therefore the same signature, as the subject `a` with date text `b`, a bar, `c`, whatever the time and body |
| Walker.DisplayName | NMK.py:88-90 | a folder's display name is never empty; a truthy name shows as itself and a falsy one as "Root" |
| Walker.FullPathIsJoin | NMK.py:92-96 | a folder's path is the `" > "`-join of the display names from the root down to it |
| Walker.Timestamp | NMK.py:107-109 | a truthy delivery time is the timestamp; a falsy one is replaced by the submission-time read, which happens only then; reading the timestamp fails exactly when the delivery read fails, or when the delivery time is falsy and the submission read fails |
| Walker.ExtractRecord | NMK.py:103-135 | a message is skipped exactly when its subject, body or timestamp read raises; otherwise the subject and body cells are `clean_string` of the subject and body, the To, CC and BCC cells are `clean_string` of the `get_recipients` strings, every text cell holds only kept characters, and the date and time are `format_date_time` of the timestamp |
| Walker.WalkMessages | NMK.py:102-135 | the set of seen signatures only grows; afterwards it is the old set plus the signatures of the new rows; a folder yields at most one row per message |
| Walker.WalkFolder | NMK.py:84-139 | the same for a whole subtree: the final set is the initial set plus the rows' signatures, and there are at most as many rows as messages in the subtree |
| Walker.WalkFolders | NMK.py:137-139 | the same for the sub-folder loop, with the set threaded from each sub-folder to the next |
| Walker.Extract | NMK.py:179 | the extraction yields at most one row per message in the archive |
| WalkProperties.DuplicateIffEarlierTwin | NMK.py:114-120 | with first-seen flags, a row is "Yes" exactly when its signature was in the starting set or an earlier row has the same signature |
| WalkProperties.LaterSameContentIsDuplicate | NMK.py:114-120 | of two rows with equal subject, date, time and body, the later one is "Yes", whatever their folders and recipients |
| Walker.SigsMembership | NMK.py:116-120 | a digest is among the rows' signatures exactly when some row has it |
| WalkProperties.OriginalsCountSignatures | NMK.py:116-120 | the number of "No" rows equals the number of signatures the rows add to the set |
| WalkProperties.ExpectedMembership | NMK.py:102-135 | a path and record pair is in the reference output exactly when some message listed under that path reads to that record |
| WalkProperties.WalkMessagesStrip | NMK.py:102-135 | a folder's message loop lists the readable messages in order, under the folder's path |
| WalkProperties.WalkMessagesFlags | NMK.py:114-120 | a folder's message loop flags its rows first-seen relative to the incoming set |
| WalkProperties.WalkFolderListing | NMK.py:84-139 | a folder's walk lists exactly the readable messages of its subtree in depth-first order, each folder's own messages before its sub-folders, each under its folder's path |
| WalkProperties.WalkFoldersListing | NMK.py:137-139 | the sub-folder loop lists the sub-folders' readable messages in order |
| WalkProperties.WalkFolderFlags | NMK.py:114-120 | a folder's walk flags its rows first-seen relative to the incoming set |
| WalkProperties.WalkFoldersFlags | NMK.py:137-139 | the sub-folder loop flags its rows first-seen; the set is threaded from each sub-folder to the next |
| WalkProperties.ExtractListing | NMK.py:179 | the whole extraction is the depth-first listing of the archive's readable messages, each under its folder's path |
| WalkProperties.ExtractFlags | NMK.py:179 | the whole extraction flags rows first-seen from an empty set: a row is "Yes" exactly when an earlier row has the same signature |
| WalkProperties.ExtractOriginals | NMK.py:116-120 | the extraction has as many "No" rows as distinct signatures |
| WalkProperties.WalkPathsUnder | NMK.py:92-96 | every row of a folder's walk carries that folder's path or a path below it |
| WalkProperties.SignatureIgnoresRecipients | NMK.py:111-114 | a message that differs from a readable one at most in its recipients is also read, and it gets the same signature |
| WalkProperties.CopyInSubfolderIsDuplicate | NMK.py:84-139 | a root holding "Inbox" with one message, where "Inbox" holds "Sub" with a copy of it, yields two rows: "Root > Inbox" flagged "No" and "Root > Inbox > Sub" flagged "Yes" |

## Left out

- The Streamlit interface (`main` apart from its call of `process_folder`), the progress bar and status text, the temporary file, `pypff` file access, the pandas and openpyxl export, and the byte stream download. These are I/O and UI.
- MD5 itself and the UTF-8 encoding with `errors='ignore'`. They are folded into the `hash` parameter, and the model assumes nothing about that parameter.
- The grammar of `datetime.strptime` with `"%Y-%m-%d %H:%M:%S.%f"`. It is the `parse` parameter.
- Time zones. Timestamps are naive `datetime` values.
- Timestamps.FormatDate: `%Y` is rendered with four digits. The C library behind `strftime` may print fewer digits for years below 1000.
- The `except Exception` of `format_date_time`. `strftime` cannot raise for a valid `datetime`, and `str()` of the text does not raise, so that branch is not modelled.
- Timestamps.FormatDateTime: text that does not parse is passed through as it is, and `clean_string` is never applied to it. No contract about control characters covers the date cell.
- Folder-level reads are assumed not to raise: `folder.get_name()` and the iteration of `sub_messages` and `sub_folders` (NMK.py:88, 102, 138). They run outside the per-message `try`, so in the program such an error escapes every `process_folder` call and ends the run in `main`'s handler with no rows (NMK.py:214-215).
- Timestamps are a `datetime` or a `str`. For another value type the reader might return, Python truthiness differs from the emptiness of its `str()` text (`0` is falsy, `"0"` is not), and such values are not modelled.
- `clean_string` and `str()` on values other than strings are not modelled. For example, a body returned as `bytes` is rendered as `b'...'`. Every text field is a string or `None`.
- Which of `get_recipient`, `get_name` or `get_email_address` raised is not modelled: any of them makes the slot unreadable. The type read is modelled on its own. An exception from `get_number_of_recipients` is an enumeration whose first slot is unreadable.
- The walk's properties are proved for any per-message step. The program's own step, `SourceSteps`, is one instance.
- The spreadsheet column layout is not modelled. The row holds the same cells under names, and the duplicate cell is a boolean in place of "Yes"/"No".
- Determinism needs no statement, because every operation is a function.
