# Age calculator and character table — a Dafny model

The application is a small Streamlit page. Its one piece of logic is
`calculate_ages`. Given a birth date, it returns two ages:

- the international age (만 나이): the number of birthdays that have come;
- the Korean counting age (세는 나이): one at birth, plus one at every new year.

The page uses it in two places:

- an individual form, which computes the ages only when a name was entered;
- a file upload, which adds the two age columns to an uploaded table. It then
  shows the columns 이름, 생년월일, 만 나이, 세는 나이 first, followed by every
  other column in its original order.

The model has four modules:

- `Dates` (`dates.dfy`): dates as (year, month, day) triples with Python's
  validity rule and ordering. It also has the date-or-datetime input, `Moment`.
- `Ages` (`ages.dfy`): the age arithmetic. The clock read `date.today()` is an
  explicit parameter `today`.
- `Registration` (`registration.dfy`): the individual form's name check and the
  picker's date range.
- `Columns` (`columns.dfy`): the uploaded table's column list. It covers the
  required-column check, the two age-column assignments and the display order.

Each computation is tied to an independent description:

- International age: the age `r` is the one for which the `r`-th anniversary of
  the birth date is not after today and the `(r+1)`-th is after it.
  `AnniversaryReachedIffWithinAge` turns this into "the `k`-th birthday has come
  iff `k` ≤ age".
- Counting age: the number of calendar years from the birth year to the current
  year, both included (`CalendarYears`).
- Display order: it is proved to be a rearrangement of the columns without
  repeats, given distinct names. The part after the four display columns is
  proved to be a subsequence of the original columns.

Behaviour worth knowing, as the code has it:

- A 29 February birthday is compared as a (month, day) pair. In a common year it
  is therefore reached on 1 March, not on 28 February (`LeapDayBirthday`).
- Only the form's date picker caps the birth date at today. Nothing in the
  arithmetic does, and the upload path never caps it. A birth date after `today`
  gives a negative international age, and a birth year after today's year gives
  a counting age of 0 or less (`FutureBirthGivesNonPositiveAges`). Ages are
  therefore not guaranteed to be non-negative.
- Python's `if name:` rejects only the empty string. A name made of blanks is
  accepted.

## Model

| member | source | states |
|---|---|---|
| `Ages.InternationalAge` | app.py:18-20 | the result `r` is the number of birthdays reached: the `r`-th anniversary is on or before today and the `(r+1)`-th is after today |
| `Ages.CountingAge` | app.py:22-23 | when the birth year is not after today's year, the result is the number of calendar years from the birth year to today's year, both included; otherwise it is at most 0 |
| `Ages.CalculateAges` | app.py:11-25 | with `y` the year difference: the international age is `y` or `y-1`, and it is `y` exactly when this year's birthday has come; the counting age is `y+1`; counting minus international is 1 once the birthday has come and 2 before it |
| `Ages.AnniversaryReachedIffWithinAge` | app.py:19-20 | the `k`-th birthday is on or before today if and only if `k` is at most the international age |
| `Ages.AgeOnBirthday` | app.py:19-20 | on the `k`-th anniversary of the birth date the international age is exactly `k` |
| `Ages.AgesMonotone` | app.py:20-23 | moving the reference day forward never lowers either age |
| `Ages.CountingAgeIgnoresMonthDay` | app.py:22-23 | two reference days in the same year give the same counting age, whatever their month and day |
| `Ages.CountingAgeStepsAtNewYear` | app.py:22-23 | the counting age on 1 January is one more than on the 31 December before it |
| `Ages.AgesNonNegative` | app.py:20-23 | a birth date not after the reference day gives an international age of at least 0 and a counting age of at least 1 |
| `Ages.AgesOnDayOfBirth` | app.py:20-23 | on the day of birth the ages are (0, 1) |
| `Ages.TimeOfDayIgnored` | app.py:14-16 | a datetime gives the same ages as its date alone, whatever its time of day |
| `Ages.FutureBirthGivesNonPositiveAges` | app.py:20-23 | for every input: a birth date after the reference day gives a negative international age, and a birth year after the reference year gives a counting age of 0 or less |
| `Ages.FutureBirthDates` | app.py:20-23 | a birth date one day after the reference day gives (-1, 1); a birth on the next 1 January gives (-1, 0) |
| `Ages.LeapDayBirthday` | app.py:19-20 | 29 February 2000 is a valid date and 29 February 2001 is not; a person born on 29 February 2000 is 0 on 28 February 2001 and 1 on 1 March 2001, counting age 2 on both days |
| `Ages.WorkedExample` | app.py:11-25 | born 5 May 1999 and seen on 15 June 2024, the ages are (25, 26) |
| `Registration.Submit` | app.py:47-67 | the form is rejected with "name required" exactly when the name is empty; otherwise it yields the ages of the chosen birth date |
| `Registration.BirthTimeIgnored` | app.py:43-49 | the optional birth time, given or not, never changes the outcome |
| `Registration.PickerAgesInRange` | app.py:41-49 | for a non-empty name and any date the picker allows (1900-01-01 to today), ages are computed; the international age is between 0 and today's year minus 1900, and the counting age between 1 and one more than that |
| `Registration.SubmitOnDayOfBirth` | app.py:41-49 | submitting on the day of birth yields (0, 1) |
| `Columns.WithColumn` | app.py:102-103 | assigning a column leaves the existing columns in place as a prefix and makes the new name present; it adds one column exactly when the name was absent, nothing else, and keeps the names distinct |
| `Columns.WithAgeColumns` | app.py:102-103 | after the two age columns are assigned, the old columns stay a prefix and the added columns are exactly the missing age columns (the length grows by their number); when both were missing they follow as 만 나이, 세는 나이; distinct names stay distinct |
| `Columns.OtherColumns` | app.py:109 | holds exactly the columns that are not display columns, keeps them in their original relative order (a subsequence), and has no repeats when the input has none |
| `Columns.FinalColumns` | app.py:106-110 | starts with 이름, 생년월일, 만 나이, 세는 나이 in that order; holds every input column; the remainder is a subsequence of the input |
| `Columns.UploadColumns` | app.py:94-110 | an upload is rejected exactly when 이름 or 생년월일 is missing; an accepted one starts with the four display columns and keeps every uploaded column |
| `Columns.FinalColumnsIsPermutation` | app.py:106-110 | when the names are distinct and include the four display columns, the final list is a rearrangement of the input with no repeats: nothing is dropped or duplicated |
| `Columns.UploadShowsEveryColumnOnce` | app.py:94-110 | an accepted upload with distinct names shows every uploaded column and both age columns exactly once |

## Left out

- Streamlit presentation: page setup, tabs, forms, columns, and the messages
  shown with `st.info`, `st.success`, `st.warning`, `st.error`, `st.dataframe`
  and `st.markdown`. Only the outcome of the name check is modelled
  (`Registration.Outcome`).
- `date.today()` reads the system clock. It is the parameter `today`.
- File reading with `pd.read_csv` and `pd.read_excel`, and date parsing with
  `pd.to_datetime(...).dt.date`. These are library calls whose parsing rules are
  not part of this model. Uploaded birth dates enter the model as `Date` values.
- Stripping blanks from column names (app.py:92) depends on Python's Unicode
  whitespace tables. Column names enter `Columns.UploadColumns` already stripped.
- The per-row use of `calculate_ages` on an upload (app.py:99) applies
  `Ages.CalculateAges` to each row. The row values are not modelled; only the
  column list is.
- The assignments at app.py:102-103 update the table `df` in place. The model
  renders them as the pure functions `Columns.WithColumn` and
  `Columns.WithAgeColumns` over the column list. The in-place update of `df`
  and the row values it writes are not captured.
- Formatting ages as "N세" (app.py:102-103) and formatting dates and times with
  `strftime` (app.py:57, app.py:59) are library formatting.
- The catch-all `except Exception` that shows any failure as an error message
  (app.py:118-119) is I/O error plumbing.
- Duplicate column names in an uploaded table: pandas would select every
  duplicate. The permutation lemmas assume distinct names.
