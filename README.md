# log-writer: the generator of fake login-attempt logs, in Dafny

The program (`app.py`) builds a table of fake login attempts. Each row has a
`log_id`, a `username` chosen from a list, a `timestamp` between two dates, and a
`successful` flag that is `Y` or `N`. This project models the three parts that
hold logic, with the random choices passed in as data:

- **Username normalisation** (module `Usernames`). The form's free-text field is
  stripped. Newlines become commas. The text is split on commas, and each piece is
  stripped and lower-cased. Empty pieces are kept, so blank input gives `[""]`.
- **`random_timestamp_from_range`** (modules `Timestamps`, `Calendar`, `Arith`).
  Both dates become midnight datetimes. The function takes
  `start + (end - start) * random.random()` and formats it as `%Y-%m-%d %T`.
  `random.random()` returns `k / 2^53` for an integer `0 <= k < 2^53`, and the
  model takes that `k` as its draw. Multiplying a timedelta by a float rounds to
  whole microseconds, half to even. `strftime` then drops the microseconds. Dates
  are proleptic Gregorian day numbers, counted as `date.toordinal()` counts them.
- **`generate_logs_df`** (module `LogGenerator`). A loop appends one record per
  iteration of `range(quantity)`. Three oracle sequences give, for each row, the
  username index, the timestamp draw and the index into `['Y', 'N']`.

Behaviour of the code that the model keeps, though a reader might expect otherwise:

- For ranges shorter than 52125 days the window is closed at both ends. Because
  the scaled timedelta is rounded to whole microseconds, the largest draws land
  exactly on the end date's midnight. `InterpolatedReachesEnd` says exactly which
  draws do, and `EndMidnightReachable` shows one such draw over a one-day range.
  From 52125 days on, the span in microseconds exceeds 2^52 and no draw reaches
  the end's midnight (`LongRangeNeverReachesEnd`, `EndReachableIff`).
- When both dates are the same, the window has zero width. Every draw gives that
  day's midnight. The end date is not extended by a day.
- A reversed range (start after end) raises nothing. The timestamp then falls
  between the two midnights, counting backwards from start.
- The only errors are the ones Python raises. `random.choice` on an empty list
  raises `IndexError` (`EmptySequence`). Unpacking a date range that does not hold
  exactly two dates raises `ValueError` (`UnpackMismatch`). Both happen in the
  first iteration, so a quantity of zero or less gives an empty table without
  error. There is no success bias, and no check of the quantity or of the date
  order.
- Normalisation keeps empty usernames and never yields an empty list. So when the
  generator is called from the form, the usernames error cannot happen
  (`SubmitForm`).

## Model

| member | source | states |
|---|---|---|
| `Usernames.StripLeft` | app.py:53 | the result is no longer than the input; everything removed from the front is whitespace; the result does not start with whitespace |
| `Usernames.StripLeftSuffix` | app.py:53 | what the leading-whitespace half of `str.strip()` keeps is a suffix of the input |
| `Usernames.StripRight` | app.py:53 | the result is a prefix of the input; everything removed is whitespace; the result does not end with whitespace |
| `Usernames.Strip` | app.py:53 | `str.strip()` leaves no surrounding whitespace, and gives the empty string exactly when the input is all whitespace |
| `Usernames.StripSlice` | app.py:53 | `str.strip()` keeps a slice `s[i..j]` of the input with only whitespace before `i` and after `j`, and the slice neither starts nor ends with whitespace |
| `Usernames.StripBoundsUnique` | app.py:53 | any two such slices are equal, so the contract fixes what `str.strip()` returns |
| `Usernames.StripOuter` | app.py:53-54 | whitespace added around a text does not change what `str.strip()` keeps |
| `Usernames.StripTrimmed` | app.py:54 | stripping text that has no surrounding whitespace changes nothing |
| `Usernames.Lower` | app.py:54 | `str.lower()` keeps the length, leaves every other character in place, moves each upper-case letter at its position by `'a' - 'A'`, leaves no upper-case letter, and keeps text trimmed |
| `Usernames.LowerIdempotent` | app.py:54 | lower-casing twice is the same as lower-casing once |
| `Usernames.ReplaceChar` | app.py:54 | `replace('\n', ',')` puts a comma at each position that held a newline and keeps every other character; so it keeps the length, leaves no newline, and adds one comma per newline |
| `Usernames.Split` | app.py:54 | `split(',')` gives one more piece than there are commas; no piece holds a comma; joining the pieces with commas gives the text back |
| `Usernames.SplitJoin` | app.py:54 | splitting pieces joined with commas gives back the same pieces, when no piece holds a comma |
| `Usernames.NormalizeName` | app.py:54 | each piece comes out as the lower-casing of a slice of it with only whitespace outside the slice; it has no surrounding whitespace and no upper-case letter, and gains no comma or newline |
| `Usernames.NormalizeUsernames` | app.py:53-54 | the number of usernames is one more than the commas plus newlines in the stripped text; every username is trimmed, lower-case, and free of commas and newlines |
| `Usernames.NormalizeBlank` | app.py:53-54 | blank input (empty or only whitespace) gives `[""]`, not an empty list |
| `Usernames.NormalizeJoined` | app.py:53-54 | normalisation gives back any list of clean names joined with commas, so it drops or invents no entry |
| `Usernames.NormalizePieces` | app.py:53-54 | for any pieces without commas or newlines, joined with commas, normalisation gives one username per piece, in order, each that piece stripped and lower-cased |
| `Calendar.YearOf` | app.py:19 | the year found is the one whose days include the given day number |
| `Calendar.Ordinal` | app.py:15 | `date.toordinal()` of a valid date falls inside its own year's days and within 1..3652059 |
| `Calendar.FromOrdinal` | app.py:19 | every day number in 1..3652059 is a valid date whose ordinal is that number |
| `Calendar.FromOrdinalOfOrdinal` | app.py:15-19 | turning a date into its ordinal and back gives the same date |
| `Arith.RoundHalfEven` | app.py:17 | timedelta-by-float rounding gives a nearest whole microsecond (`q * b` within `b / 2` of `a`), and the even one on a tie |
| `Arith.RoundHalfEvenBelowEven` | app.py:17 | just below an even multiple `c * b`, rounding reaches `c` exactly when the distance is at most `b / 2` |
| `Timestamps.DateTimeAt` | app.py:17-19 | the datetime fields of an instant are valid and give back that instant |
| `Timestamps.DateTimeAtInstantOf` | app.py:17-19 | reading the fields of a datetime's instant gives back the same datetime |
| `Timestamps.Midnight` | app.py:15 | `datetime.combine(d, datetime.min.time())` is an instant in range whose datetime is `d` at 00:00:00 |
| `Timestamps.ScaledSpan` | app.py:17 | `(end - start) * random.random()` is the whole number of microseconds nearest to `span_us * k / 2^53`, and lies between zero and the span on the span's side |
| `Timestamps.Interpolate` | app.py:17 | `start + (end - start) * u`, cut to whole seconds, is start moved by the whole seconds of the scaled span, and lies between start and end, in either order |
| `Timestamps.InterpolateMonotone` | app.py:17 | when start <= end, a larger draw never gives an earlier instant |
| `Timestamps.InterpolateReachesTop` | app.py:17 | when start < end, the result is end exactly when `2 * span_us * (2^53 - k) <= 2^53` |
| `Timestamps.InterpolatedInstant` | app.py:15-17 | the instant lies between the midnights of the two dates, whichever comes first; so when both dates are the same, every draw gives that day's midnight |
| `Timestamps.InterpolatedReachesEnd` | app.py:15-17 | when start precedes end, the end midnight is reached exactly by the draws within half a microsecond of the full span |
| `Timestamps.EndMidnightReachable` | app.py:15-17 | over 2023-01-01 to 2023-01-02, the largest possible draw gives 2023-01-02 00:00:00 |
| `Timestamps.LongRangeNeverReachesEnd` | app.py:15-17 | when the dates are 52125 days apart or more, every draw gives an instant strictly before the end's midnight |
| `Timestamps.EndReachableIff` | app.py:15-17 | when start precedes end, some draw gives the end's midnight if and only if the dates are fewer than 52125 days apart |
| `Timestamps.ParseTimestamp` | app.py:19 | a text reads as a datetime exactly when it has the shape `YYYY-MM-DD HH:MM:SS` |
| `Timestamps.FormatSlices` | app.py:19 | `%Y-%m-%d %T` puts the 4-digit year, month, day, hour, minute and second at fixed places, split by `-`, `-`, space, `:`, `:` |
| `Timestamps.FormatTimestamp` | app.py:19 | `strftime('%Y-%m-%d %T')` gives text of the 19-character shape that reads back as the same fields |
| `Timestamps.FormatParseTimestamp` | app.py:19 | every text of that shape is the formatting of the fields read from it |
| `Timestamps.RandomTimestamp` | app.py:9-19 | fails with the unpacking error exactly when the range does not hold two dates; otherwise the text has the timestamp shape and reads back as a valid datetime whose instant is the interpolated one, between the two midnights |
| `Timestamps.SameDayTimestampText` | app.py:9-19 | the range (2023-01-01, 2023-01-01) gives `2023-01-01 00:00:00` for every draw |
| `LogGenerator.Row` | app.py:33-42 | row i has log_id i + 1, a username from the list, a flag `Y` or `N`, and a timestamp text between the two midnights |
| `LogGenerator.NextRow` | app.py:33-42 | one iteration fails with `IndexError` on an empty list and with the unpacking error when the range is not a pair; otherwise it builds exactly `Row(row, …)` |
| `LogGenerator.GenerateLogs` | app.py:22-44 | fails exactly when quantity > 0 and the list is empty (`IndexError`, checked first) or the range is not a pair; otherwise gives max(quantity, 0) rows, row i being `Row(i, …)`, in generation order |
| `LogGenerator.SubmitForm` | app.py:53-62 | from the form, with quantity 1..500, generation fails only when the date range is not a pair; it gives exactly `quantity` rows, row i being `Row(i, …)` over the normalised list, so its username comes from that list and is trimmed and lower-case |

## Left out

- The Streamlit page (app.py:47-65): page setup, widgets, the disabled output selector and the table display are presentation code. Only the normalisation (lines 53-54) and the call to the generator (line 62) are modelled.
- pandas: the DataFrame is a sequence of records. Column dtypes and the removed `DataFrame.append` are not modelled.
- The `random` module: each draw is an input. The model does not state that the draws are uniform or independent. `random.choice` is modelled as the index it picks.
- Usernames.Lower: maps only the ASCII letters A-Z. Python's `str.lower()` also maps capitals of other scripts, and it can change the length of a string.
- Timestamps.FormatTimestamp: `%Y` is zero-padded to four digits. The GNU C library prints years before 1000 without padding, and Python's `strftime` has passed that through on Linux (newer Python releases pad it themselves), so there those years can come out shorter.
- `%T` is taken as `%H:%M:%S`, as the GNU C library reads it.
- Dates are limited to Python's range, years 1 to 9999. Naive datetimes have no time zone and no leap seconds, so none are modelled.
- A date range whose elements are not dates is not modelled: the inputs are typed as dates.
- CSV export and a success bias: neither exists in the code.
