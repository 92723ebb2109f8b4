# Satellite tracker: horizon gate, rotator command and response selection

A model, in Dafny, of the decision-and-serialisation layer of a small
satellite tracker. The tracker computes a satellite's azimuth and elevation
as seen from a ground station in Lucknow. It then either drives an
antenna rotator over a serial line (`satelite_azimuthal.py`) or answers a
web request (`app.py`). The model covers:

- the **horizon gate** that both versions of `get_satellite_position` apply.
  An elevation strictly below 0 degrees is "below the horizon". Exactly
  0 degrees is visible. (module `Horizon`);
- Python's **`round`**, stated on exact reals as round half to even, and
  `round(x, 2)` as the nearest hundredth (module `Rounding`);
- Python's **integer printing**, base 10 with no leading zeros and a `-` for
  negatives, and a parser that is its exact inverse (module `Decimal`);
- the **rotator wire format** `<AZ{az}><EL{el}>` plus a newline, built by
  `send_to_arduino`, with a parser and round-trip lemmas in both
  directions (module `RotatorCommand`);
- **`send_to_arduino`'s return flag** and the **`__main__` tracking loop**.
  The loop runs over a finite run of passes. Each pass holds a reading and
  the outcome a write would have in that pass. The loop is a method proved
  against two specification functions: the commands of the visible passes,
  and the index of the first failed write (module `Tracker`);
- the **catalog lookup and response selection** of `get_satellite_data`
  (module `WebApp`).

The angles computed by the astronomy library are inputs (`Horizon.Reading`).
In the web handler, "build the satellite from its element set and compute
its angles now" is a function parameter, `position`. This lets the model
say which record the angles were computed for. It also lets the model say
that an unknown name never reaches that computation. The timestamp string
is an opaque input.

The web handler's error strings are `"Satellite not found"` and
`"Satellite is below horizon"`. The command formatter accepts any angles
and never clamps them: an azimuth of 359.6 is sent as `AZ360`.

## Model

| member | source | states |
|---|---|---|
| `Horizon.SatellitePosition` | satelite_azimuthal.py:52-55 | the result is "below horizon" exactly when elevation < 0; otherwise it is (azimuth, elevation) unchanged and in that order, so the returned elevation is ≥ 0 |
| `Horizon.HorizonBoundary` | satelite_azimuthal.py:52 | elevation exactly 0 is visible; every negative elevation, -0.001 among them, is below the horizon |
| `Rounding.RoundHalfEven` | satelite_azimuthal.py:76-77 | `round(x)` is within 1/2 of x, and on a tie it is even |
| `Rounding.RoundHalfEvenUnique` | satelite_azimuthal.py:76-77 | those two properties determine `round(x)`: any integer within 1/2 of x that is even on a tie equals it |
| `Rounding.RoundHalfEvenNearest` | satelite_azimuthal.py:76-77 | no integer is closer to x than `round(x)` |
| `Rounding.RoundHalfEvenOfInt` | satelite_azimuthal.py:76-77 | whole-degree angles are sent as they are |
| `Rounding.RoundHalfEvenNonNegative` | satelite_azimuthal.py:77 | a non-negative elevation rounds to a non-negative integer |
| `Rounding.RoundToHundredths` | app.py:69-70 | `round(x, 2)` is within 0.005 of x, is a whole number of hundredths, and on a tie is an even number of hundredths |
| `Rounding.RoundingExamples` | satelite_azimuthal.py:76-77 | 359.6→360, 10.4→10, 32.7→33, 118.4→118, ties 0.5→0, 1.5→2, 2.5→2, -0.5→0; `round(118.4, 2)` = 118.4 |
| `Decimal.NatToDecimal` | satelite_azimuthal.py:76-77 | a natural prints as a non-empty digit string with no leading zero, "0" exactly for 0 |
| `Decimal.IntToDecimal` | satelite_azimuthal.py:76-77 | an integer prints as digits with a leading `-` exactly when it is negative |
| `Decimal.ParseNat` | satelite_azimuthal.py:76-77 | the reader accepts exactly the canonical digit strings the printer writes |
| `Decimal.ParseInt` | satelite_azimuthal.py:76-77 | a negative result only comes from a string that starts with `-` |
| `Decimal.DigitsValueOfNatToDecimal` | satelite_azimuthal.py:76-77 | the printed digits of n have value n |
| `Decimal.NatToDecimalOfDigitsValue` | satelite_azimuthal.py:76-77 | a canonical digit string is the printing of its own value |
| `Decimal.IntRoundTrip` | satelite_azimuthal.py:76-77 | parsing a printed integer gives it back |
| `Decimal.ParsedIsPrinted` | satelite_azimuthal.py:76-77 | every string the parser accepts is the printing of the parsed value |
| `Decimal.IntToDecimalInjective` | satelite_azimuthal.py:76-77 | distinct integers print differently |
| `Decimal.DecimalExamples` | satelite_azimuthal.py:76-77 | 0→"0", 45→"45", 360→"360", -7→"-7" |
| `RotatorCommand.FormatCommand` | satelite_azimuthal.py:76-79 | the command starts with `<AZ`, ends with `>` and a newline, is ASCII (so its UTF-8 bytes are its characters), and parses back to exactly (round(az), round(el)) |
| `RotatorCommand.SerializeShape` | satelite_azimuthal.py:79 | every command `Serialize` builds (the string of line 79) has the `<AZ`…`>`+newline frame, at least 9 characters, all ASCII |
| `RotatorCommand.FieldRoundTrip` | satelite_azimuthal.py:76-79 | reading one bracketed field written from an integer gives the integer and the text after it |
| `RotatorCommand.FieldParsed` | satelite_azimuthal.py:76-79 | whatever field the reader accepts is the field written from the value it returns |
| `RotatorCommand.ParseSerialize` | satelite_azimuthal.py:76-79 | parsing a serialized command recovers both integers exactly |
| `RotatorCommand.SerializeParse` | satelite_azimuthal.py:76-79 | the parser accepts only serialized commands: the text is the serialization of what it returns |
| `RotatorCommand.SerializeInjective` | satelite_azimuthal.py:76-79 | two commands have the same text exactly when their fields are equal |
| `RotatorCommand.FormatNonNegativeElevation` | satelite_azimuthal.py:77 | a non-negative elevation yields a non-negative EL field |
| `RotatorCommand.FormatOfRounded` | satelite_azimuthal.py:76-79 | the command depends on the angles only through their rounded values |
| `RotatorCommand.SerializeExamples` | satelite_azimuthal.py:79 | (0,45), (360,10) and (118,33) are written `<AZ0><EL45>`, `<AZ360><EL10>`, `<AZ118><EL33>`, each with a newline |
| `RotatorCommand.FormatExamples` | satelite_azimuthal.py:76-79 | (0, 45) gives AZ0; (359.6, 10.4) gives AZ360 and EL10 (no clamping, fields rounded independently); (118.4, 32.7) gives AZ118 and EL33 |
| `Tracker.SendToArduino` | satelite_azimuthal.py:76-88 | returns false exactly when the write fails; the text handed to the port is the command for (round(az), round(el)) |
| `Tracker.PassCommands` | satelite_azimuthal.py:105-110 | a pass contributes no command below the horizon and exactly one otherwise |
| `Tracker.FirstFailure` | satelite_azimuthal.py:109-113 | the loop ends at the first pass whose reading is visible and whose write fails; no earlier pass is such a pass |
| `Tracker.VisibleCommands` | satelite_azimuthal.py:104-117 | no more commands than passes |
| `Tracker.VisibleIndices` | satelite_azimuthal.py:105-107 | the indices of the visible passes, strictly increasing, and all of them |
| `Tracker.Track` | satelite_azimuthal.py:104-117 | the loop stops early exactly when some visible pass's write fails; the commands written are those of the visible passes before the first failure, in order, and nothing after it |
| `Tracker.VisibleCommandsAppend` | satelite_azimuthal.py:104-117 | the commands of two runs in sequence are the commands of each, concatenated |
| `Tracker.SentInOrder` | satelite_azimuthal.py:105-113 | the j-th command written is the one built from the j-th visible reading, so no command comes from a reading below the horizon |
| `Tracker.SentElevationNonNegative` | satelite_azimuthal.py:105-110 | every command written parses, and its EL field is ≥ 0 |
| `Tracker.BelowHorizonIsSkipped` | satelite_azimuthal.py:114-117 | a pass below the horizon adds no command and never ends the loop |
| `Tracker.FailureIgnoresLaterPasses` | satelite_azimuthal.py:111-113 | after the first failed write, later passes change neither where the loop stops nor what was written |
| `WebApp.FindFrom` | app.py:45-46 | from a start index, returns the first record whose name equals the query, or nothing when no record from there on matches |
| `WebApp.FindSatellite` | app.py:45-46 | the first record in catalog order whose name equals the query exactly; "not found" exactly when no record matches; a missing name matches nothing |
| `WebApp.GetSatelliteData` | app.py:42-72 | 404 with "Satellite not found" exactly when the lookup fails; otherwise 200 and, for the first matching record's reading, the below-horizon error (with timestamp) exactly when the elevation is < 0, else the payload carries `round(az, 2)` and `round(el, 2)` of the gate's angles, in that order, with the timestamp |
| `WebApp.NotFoundComputesNothing` | app.py:48-49 | for an unknown name the response is the 404 error, whatever the position computation would give |
| `WebApp.FirstMatchWins` | app.py:45-46 | of two records with the same name, the earlier one is used |
| `WebApp.HandlerHorizonBoundary` | app.py:30-32 | elevation exactly 0 gives a position payload; a negative elevation gives the below-horizon error and no angles |
| `WebApp.IssExample` | app.py:68-72 | the space station at (118.4, 32.7) is reported as azimuth 118.4 and elevation 32.7 |

## Left out

- The astronomy library: the timescale, the element-set parser, the
  ground-station position, `.at()`, `.altaz()` and the unused ephemeris
  load. It is floating-point astronomy in a foreign library. Its result is
  an input reading, and in the web handler a function parameter.
- The serial port: opening it, the two-second settle delay, the UTF-8
  encoding (the command is ASCII, which the model proves), and closing it
  on exit. Each write is an abstract outcome, `Written` or `WriteFailed`.
  A failed write is modelled as putting nothing on the wire.
- Exceptions other than the serial exception caught in `send_to_arduino`.
  In the source they also end the loop, through the outer handler. The
  model has no such outcome.
- The sleep between passes and the endlessness of `while True`. The
  loop runs over a finite run of passes.
- Flask routing, templates, `jsonify`, the request body and loading the
  catalog file. The catalog is a sequence. The requested name is an
  `Option<string>`, `None` when the request has none. The 200 status is
  the one `jsonify` returns by default.
- Wall-clock timestamps. They are opaque strings passed in.
- Console output. The "Sent" message prints the same two rounded values
  that the command carries.
- IEEE floating point. Angles are exact reals. Python's `round` is stated
  on those reals, so binary-representation effects are not modelled.
  `round(x, 2)` is the nearest hundredth, with ties to even.
- NaN and infinite angles, on which Python's `round` raises. Reals have
  neither.
