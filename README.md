# Unmet-prescription register: authentication and demand records

This project models the core of a browser application in which health centres register
prescriptions they could not fill. The model covers two parts.

- **`AutenticacionSistema` (auth.js).** This object owns three pieces of state: the current
  session, the persisted user list and the persisted session slot. It provides the password
  hash, session restore, login and logout, user create, update and delete for administrators,
  the list of centres, bootstrap of a default administrator, and a full reset.
- **The demand-record rules of script.js.** These are:
  - form validation and the unmet-demand arithmetic;
  - the guarded add, delete and wipe of the stored records;
  - the view of the records scoped to the caller's centre;
  - the critical-products panel and the per-centre summary of the export;
  - the split of a product text into code and name;
  - the access-type checks the login form makes around `auth.login`.

The model is organised in these modules:

- `Text`: the JavaScript white-space class behind `trim` and `\s`, digits, the UTF-16 encoding
  of a string (`Utf16`), and the code-unit order used by `sort`. A Dafny `char` is a Unicode
  scalar value, so a JavaScript string is the UTF-16 encoding of a Dafny string. `charCodeAt`,
  `.length` and `sort` all work on that encoding.
- `Collections`: `find`/`findIndex`, `filter`, `splice` and an insertion-ordered map.
- `PasswordHash`: `hashearContraseña`. ECMAScript's `<<` is modelled exactly as ToInt32 of
  ToInt32(h)·32. The accumulator is not truncated after the subtraction.
- `Users`: one function per user operation, giving its outcome from the stored list and the
  session. The store's invariants are lemmas here, stated with the conditions the code
  actually needs.
- `Auth`: the class `AuthSystem`. Its fields are `users`, `stored` and `current`. Every method
  states the whole new state in terms of the `Users` functions.
- `Records`: the form, the record, and the class `DemandStore` over the stored record list.
- `Reports`: the two accumulating loops. Each is proved equal, key by key, to a reference
  definition over the filtered records.
- `ProductCode`: the two regular expressions, as greedy matchers.
- `LoginForm`: `realizarLogin`.

Identifiers built from `Date.now()`/`Math.random()`, ISO timestamps and the answers to
`confirm` are parameters.

An update changes a record's centre only when the same update also sets the role to 'usuario'
(auth.js:240-249). Any other update leaves the centre, and so the list of centres, as it was
(`Users.UpdateWithoutUserRoleKeepsCentres`). The administrators' edit form always sends both a
role and a centre (script.js:2830-2833), so from that form a new centre takes effect only
together with the role 'usuario'.

The store's invariants hold only under conditions the code does not check:

- User names stay unique on create or rename only when the name supplied is already trimmed.
  The duplicate check compares the raw name, but the record stores the trimmed one
  (`Users.CreateUntrimmedNameDuplicates`).
- At most one 'usuario' per centre holds except when an update promotes a record to
  'usuario' in place (`Users.UpdatePromotionBreaksOneUserPerCentre`).
- The login form's access-type check agrees with the role that logs in only when names are
  unique (`LoginForm.DuplicateNameAdminAccess`).

## Model

| member | source | states |
|---|---|---|
| `Text.SpaceEnd` | script.js:1691 | the greedy `\s*` from a position stops at the first non-white-space character and consumes only white space |
| `Text.DigitEnd` | script.js:1691 | the greedy `\d+` run from a position consists of digits only and stops at the first non-digit |
| `Text.Trim` | auth.js:111 | `trim()` leaves no white space at either end of its result |
| `Text.TrimIsInfix` | script.js:1251-1253 | `trim()` returns a contiguous slice of its input and removes only white space before and after it |
| `Text.TrimIdempotent` | script.js:1690-1692 | trimming an already trimmed text changes nothing |
| `Text.Utf16Units` | script.js:1264 | the UTF-16 encoding, whose length `.length` reports, has at least one code unit per character and every unit below 2^16 |
| `Text.FromUtf16OfUtf16` | auth.js:60 | decoding the code units `charCodeAt` reads gives back the string, so the encoding loses nothing |
| `Text.Utf16Injective` | auth.js:265 | distinct strings have distinct UTF-16 encodings |
| `Text.Utf16Append` | auth.js:59-62 | the encoding of a concatenation is the concatenation of the encodings |
| `Text.Utf16Emoji` | auth.js:60 | a character outside the Basic Multilingual Plane, U+1F600, is the surrogate pair 0xD83D, 0xDE00 |
| `Text.LexLessIrreflexive` | auth.js:265 | no string sorts before itself |
| `Text.LexLessTransitive` | auth.js:265 | the string order `sort()` uses is transitive |
| `Text.LexLessTotal` | auth.js:265 | any two distinct strings are ordered one way or the other |
| `Text.LexLessAsymmetric` | auth.js:265 | two strings never sort before each other |
| `Text.SortsBySurrogates` | auth.js:265 | `sort()` compares code units, not code points: U+1F600 sorts before U+E000 because its high surrogate 0xD83D is smaller |
| `Collections.FindFirst` | auth.js:193 | `findIndex` gives the first index whose element satisfies the predicate, and none exactly when no element does |
| `Collections.Filter` | script.js:1471 | `filter` keeps elements of the input that satisfy the predicate, keeps every such element, and never grows the list |
| `Collections.RemoveAt` | auth.js:200 | `splice(i, 1)` drops exactly the element at `i`; the elements before stay in place and those after shift down by one |
| `Collections.Find` | script.js:1515 | `productosCon.get(clave)` returns an entry with key `k` from the map, and nothing exactly when no entry has that key |
| `Collections.UpsertFind` | script.js:1508-1517 | after set-if-absent-then-update, key `k` maps to the updated old entry (or the initial one), every other key reads as before, and keys stay distinct |
| `PasswordHash.ToInt32` | auth.js:61 | the operand of `<<` is reduced to the signed 32-bit range and is congruent to the input modulo 2^32 |
| `PasswordHash.HashPassword` | auth.js:55-64 | the loop returns "0" for the empty password and otherwise the base-16 rendering of the left fold of `((h << 5) - h) + charCodeAt(i)` from 0 over the UTF-16 code units of the password |
| `PasswordHash.FoldSnoc` | auth.js:59-62 | one more code unit is one more step of the loop |
| `PasswordHash.FoldCharSnoc` | auth.js:59-62 | one more character is one step of the loop inside the Basic Multilingual Plane and two steps, high then low surrogate, outside it |
| `PasswordHash.HashIsRenderedFold` | auth.js:58-63 | the early return for the empty password agrees with rendering the fold |
| `PasswordHash.ParseHexOfHex` | auth.js:63 | reading back the base-16 digits of `toString(16)` gives the number |
| `PasswordHash.RenderRoundTrip` | auth.js:63 | the rendering with its leading '-' for negatives determines the accumulator |
| `PasswordHash.HashEqualIff` | auth.js:55-64 | two passwords have the same digest exactly when the folds over their code units are equal |
| `PasswordHash.FoldBound` | auth.js:59-62 | the accumulator changes by at most 2^31 + 2^16 per code unit |
| `PasswordHash.FoldExactInDoubles` | auth.js:61 | for passwords of up to 2^20 code units the accumulator stays below 2^53 in magnitude, so the double arithmetic is exact |
| `PasswordHash.DefaultAdminDigest` | auth.js:274 | the stored digest of 'admin123' is "-139c43b7d": the accumulator leaves the 32-bit range and is not truncated back |
| `PasswordHash.Collision` | auth.js:55-64 | the hash is not injective: "Aa" and "BB" both give "840" |
| `PasswordHash.EmojiDigest` | auth.js:55-64 | "😀" (U+1F600) is hashed as its two surrogates and gives "1b0d63" |
| `Users.SessionRole` | auth.js:40-42 | `obtenerRolActual()` is the session's role, or null when there is no session or the role is empty |
| `Users.SessionCentre` | auth.js:45-47 | `obtenerCentroActual()` is the session's centre, or null when there is no session or the centre is empty |
| `Users.Create` | auth.js:82-126 | creating fails for a non-administrator and for any empty field; otherwise it reports a duplicate name exactly when the raw name is taken and, failing that, a taken centre exactly when a 'usuario' is created for a centre a 'usuario' already holds; with none of these it appends exactly one record: trimmed name, hashed password, given role and centre, active |
| `Users.CreatePreservesUniqueNames` | auth.js:94-111 | creating keeps names unique when the name given is already trimmed |
| `Users.CreatePreservesOneUserPerCentre` | auth.js:100-106 | creating keeps at most one 'usuario' per centre |
| `Users.CreatePreservesUniqueIds` | auth.js:110 | creating with a fresh id keeps ids unique |
| `Users.CreateUntrimmedNameDuplicates` | auth.js:94-111 | a name that is not taken as given but whose trimmed form is passes the duplicate check and is stored trimmed, so names are no longer unique |
| `Users.UntrimmedAdminDuplicates` | auth.js:94-111 | " admin" passes the duplicate check against 'admin' and is stored as 'admin', a second record of that name |
| `Users.Login` | auth.js:129-176 | login succeeds exactly when some record has the exact name, the digest of the password and `activo` true; the session copies id, name, role and centre of the first such record; otherwise the one generic error |
| `Users.LoginRejectsInactive` | auth.js:146-154 | an inactive record never logs in, whatever the password |
| `Users.LoginAcceptsCollidingPassword` | auth.js:137-153 | a different password with the same digest logs in |
| `Users.Delete` | auth.js:187-206 | deleting is for administrators only and reports an unknown id; on success it removes exactly the first record with the id, keeps the rest in order, and returns the removed record |
| `Users.DeletePreservesInvariants` | auth.js:193-200 | removing a record keeps names unique, one 'usuario' per centre and ids unique |
| `Users.Changed` | auth.js:221-250 | the edited record keeps its id, creation time and active flag, carries the update time, and keeps its centre unless the update sets the role to 'usuario' |
| `Users.UpdateMeaning` | auth.js:209-257 | updating is for administrators only and reports an unknown id exactly when no record has it; for the first record with the id it reports a duplicate name exactly when a new name differing from the record's own is taken, and otherwise a taken centre exactly when a move to a new centre with role 'usuario' meets another 'usuario' there; it succeeds exactly when neither holds, replacing that record by its edited version and changing nothing else |
| `Users.UpdateSucceeded` | auth.js:214-250 | after a successful update, a rename passed the duplicate check and a centre move passed the centre check, which excludes the record itself |
| `Users.UpdatePreservesUniqueNames` | auth.js:221-228 | updating keeps names unique when a new name is given already trimmed |
| `Users.UpdatePreservesOneUserPerCentre` | auth.js:240-249 | updating keeps at most one 'usuario' per centre, with ids unique, unless it promotes a record to 'usuario' in place |
| `Users.UpdatePreservesUniqueIds` | auth.js:250-251 | updating keeps ids unique |
| `Users.UpdatePromotionBreaksOneUserPerCentre` | auth.js:235-249 | an update that only sets the role to 'usuario' runs no centre check, so a record whose centre another 'usuario' already holds becomes a second 'usuario' there |
| `Users.UpdateWithoutUserRoleKeepsCentres` | auth.js:240-249 | an update that does not set the role to 'usuario' leaves the list of centres unchanged, even when it supplies a new centre |
| `Users.InsertSorted` | auth.js:264-265 | inserting into a strictly sorted list of distinct centres gives a strictly sorted list holding exactly the old centres and the new one |
| `Users.SortedDistinct` | auth.js:264-265 | `[...new Set(s)].sort()` is strictly increasing and holds exactly the values of `s` |
| `Users.SortedUnique` | auth.js:265 | two strictly sorted lists with the same elements are equal, so the `Set`'s order does not matter |
| `Users.CentreList` | auth.js:264 | `usuarios.map(u => u.centro)` lists each record's centre at its index |
| `Users.Centres` | auth.js:260-266 | `obtenerCentros()` lists every centre of a stored record once, in increasing order |
| `Users.DefaultAdminLogsIn` | auth.js:277-287 | after the bootstrap, 'admin' / 'admin123' logs in as administrator of 'ADMINISTRACIÓN' |
| `Users.DefaultAdminStoreIsValid` | auth.js:277-287 | the seeded store satisfies every invariant |
| `Auth.AuthSystem.constructor` | auth.js:11-14 | a new object takes the stored list and adopts a well-formed stored session; with a corrupt one it ends with no session at all |
| `Auth.AuthSystem.LoadSession` | auth.js:17-27 | `cargarSesion()` adopts a well-formed stored session, changes nothing when none is stored, and clears a corrupt one through `logout()` |
| `Auth.AuthSystem.CurrentCentre` | auth.js:45-47 | the current centre is present only for an authenticated session with a non-empty centre |
| `Auth.AuthSystem.AdminUserList` | auth.js:73-79 | the user list is returned only to an administrator, otherwise the empty list |
| `Auth.AuthSystem.CentreNames` | auth.js:260-266 | the centres of the stored records, once each, strictly increasing |
| `Auth.AuthSystem.CreateUser` | auth.js:82-126 | the stored list becomes the created list on success and is untouched on every error |
| `Auth.AuthSystem.Login` | auth.js:129-176 | on success the session is set and persisted; on failure neither is touched |
| `Auth.AuthSystem.Logout` | auth.js:179-184 | always ends with no session in memory or in storage |
| `Auth.AuthSystem.DeleteUser` | auth.js:187-206 | the stored list loses exactly the first record with the id on success and is untouched on error |
| `Auth.AuthSystem.UpdateUser` | auth.js:209-257 | the record is edited field by field and the whole list written once at the end, so a check that fails midway leaves the stored list as it was |
| `Auth.AuthSystem.InitAdmin` | auth.js:269-300 | seeds exactly the default administrator and returns true on an empty store; otherwise changes nothing and returns false |
| `Auth.AuthSystem.Reset` | auth.js:303-309 | ends with exactly the default administrator and no session |
| `Auth.ResetThenAdminLogin` | auth.js:269-309 | after `resetearSistema()`, `login('admin', 'admin123')` succeeds as administrator of 'ADMINISTRACIÓN' and the persisted session survives a reload |
| `Auth.LogoutThenReload` | auth.js:179-184 | after a logout a reload restores no session |
| `Records.ValidateForm` | script.js:1250-1289 | the pushed messages are exactly the failing checks in check order, and the form is valid exactly when there are none |
| `Records.CheckTexts` | script.js:1251-1270 | the three text checks push exactly the failing ones in order, with `.length` counting UTF-16 code units |
| `Records.ErrorsUpToMeaning` | script.js:1258-1286 | the first k checks report each failing one once, in check order, and nothing else |
| `Records.FormErrorsMeaning` | script.js:1250-1289 | a message appears exactly for each failing check, each once, in check order; the list is empty exactly when the form is valid |
| `Records.ShortProductReported` | script.js:1264-1266 | a product shorter than three UTF-16 code units once trimmed is always reported and makes the form invalid |
| `Records.UnmetDemand` | script.js:1341 | `Math.max(0, requerida - disponible)` is never negative and adds up with the available quantity to the required one when that is not exceeded |
| `Records.DemandClass` | script.js:1396-1400 | low exactly when nothing is unmet; high exactly when the unmet part is at least 30% of a positive requirement |
| `Records.DemandClassMonotone` | script.js:1396-1400 | more unmet demand of the same requirement never lowers the class |
| `Records.Visible` | script.js:2945-2956 | an administrator sees every record; anyone else sees the records of the current centre |
| `Records.VisibleScoped` | script.js:2953-2955 | a non-administrator sees only records of their centre, sees all of them, and sees nothing without a session or centre |
| `Records.VisibleAppend` | script.js:2955 | the view of appended records is the old view followed by the view of the new ones |
| `Records.NewRecord` | script.js:1325-1341 | a new record carries the registering user, the trimmed establishment and `max(0, requerida - disponible)` |
| `Records.WithoutId` | script.js:1471 | `filter(r => r.id !== id)` keeps every record with another id and none with this one |
| `Records.DemandStore.constructor` | script.js:1374-1377 | the store holds the stored list |
| `Records.DemandStore.Add` | script.js:1292-1352 | stores nothing when unauthenticated, outside a non-administrator's centre, or for an invalid form; otherwise appends exactly one record at the end |
| `Records.DemandStore.Delete` | script.js:1442-1472 | a non-administrator cannot delete another user's record; an unconfirmed or missing id changes nothing; otherwise exactly the records with the id go, the others stay in order |
| `Records.DemandStore.Clear` | script.js:1583-1599 | only a confirmed administrator wipes the records; otherwise nothing changes |
| `Records.DeleteByOwnerOnly` | script.js:1450-1471 | with unique ids a non-administrator's delete removes only their own record |
| `Records.WithoutIdAppend` | script.js:1471 | removing by id from a concatenation removes from each part |
| `Records.WithoutAbsentId` | script.js:1464-1471 | an id no record carries removes nothing |
| `Records.AddedRecordVisible` | script.js:1301-1349 | a non-administrator's added record joins the end of their own view |
| `Reports.GroupCritical` | script.js:1502-1519 | the `forEach` builds the product map that `Grouped` defines |
| `Reports.GroupedFind` | script.js:1505-1519 | each product's entry holds the sum of its records' unmet demand and their count, exactly when some record has unmet demand for it; keys are distinct |
| `Reports.GroupedMeaning` | script.js:1501-1522 | the panel lists one entry per product with unmet demand and no other, with its total and a positive record count |
| `Reports.CountForPositive` | script.js:1506-1517 | `registros` is positive exactly when some record reports unmet demand for the product |
| `Reports.InsertByTotal` | script.js:1521-1522 | inserting into the ranking loses and adds nothing |
| `Reports.InsertByTotalOrdered` | script.js:1521-1522 | inserting keeps the ranking non-increasing by total |
| `Reports.SortByTotal` | script.js:1521-1522 | the sort by `b.demanda_total - a.demanda_total` is a permutation, non-increasing by total |
| `Reports.CriticalProducts` | script.js:1501-1522 | the panel's list is the grouping sorted largest total first, a permutation of the grouping |
| `Reports.TallyOfSnoc` | script.js:1798-1812 | one record more changes the reference accumulator exactly as the `forEach` body does |
| `Reports.TalliesFind` | script.js:1780-1813 | each centre key's accumulator is the reference accumulator of the records filed under it, and keys no record is filed under have none |
| `Reports.AddToTally` | script.js:1798-1812 | the loop body updates the accumulator as specified |
| `Reports.TallyRecords` | script.js:1782-1813 | the accumulating `forEach` builds exactly `Tallies` |
| `Reports.FinishedAll` | script.js:1816 | the `.map` produces one row per accumulator |
| `Reports.FinishAll` | script.js:1816-1850 | the loop over the accumulators builds exactly the mapped rows |
| `Reports.CentreSummaries` | script.js:1779-1851 | `generarResumenPorCentro` is the accumulation followed by the `.map` |
| `Reports.GroupedOfCritical` | script.js:1807-1828 | grouping only the records with unmet demand gives the same product totals as grouping them all |
| `Reports.SummaryKeys` | script.js:1783-1796 | the summary has one row per centre key (empty establishment as 'Sin especificar') some record is filed under, and no other |
| `Reports.SummaryRow` | script.js:1816-1850 | each row counts the centre's records, distinct products and service types, sums its three quantities, and lists min(5, number of products with unmet demand) of them with their totals, largest first, no product left out having a larger total than one listed |
| `Reports.FinishMeaning` | script.js:1821-1849 | the row built from a centre's records has those counts and sums, and its top list has min(5, number of products) entries, largest first, each with its summed unmet demand, and no product left out outranks one listed |
| `Reports.TopMeaning` | script.js:1821-1833 | any prefix of the ranked products is ordered largest total first, each entry carries the product's summed unmet demand over the centre's records and a positive count, and no product outside the prefix has a larger total than one inside |
| `Reports.PrefixKeepsLargest` | script.js:1830-1833 | `.slice(0, 5)` of a list sorted largest first keeps entries at least as large as every one it drops |
| `ProductCode.MatchBracketed` | script.js:1691 | when the first pattern matches, the code is a non-empty digit run and the name is trimmed |
| `ProductCode.MatchLeadingCode` | script.js:1694 | when the second pattern matches, the code has at least three digits and the name is trimmed |
| `ProductCode.SplitProductCode` | script.js:1689-1697 | the code is empty or all digits; it is empty exactly when neither pattern matches, and the name is then the trimmed text; the name is always trimmed |
| `ProductCode.SplitSelected` | script.js:897-900 | the text written by selecting a product, `[code] description`, splits back into that code and description |
| `ProductCode.SplitExample` | script.js:1688 | "[00091] NOMBRE" gives code "00091" and name "NOMBRE" |
| `ProductCode.DashKeptInName` | script.js:1691-1695 | as written, "code - name" is taken by the first pattern and the dash stays in the name |
| `ProductCode.DashExample` | script.js:1693-1695 | "00091 - PARACETAMOL" gives the name "- PARACETAMOL" |
| `ProductCode.SplitProductCodeIntended` | script.js:1693-1695 | with the leading-code pattern tried first, the code is empty or all digits, and an empty code leaves the trimmed text as the name |
| `ProductCode.IntendedReadsDash` | script.js:1694-1695 | the intended split reads "code - name" as that code and that name |
| `ProductCode.IntendedReadsSelected` | script.js:1691-1692 | the intended split still reads `[code] description` correctly |
| `ProductCode.IntendedDashExample` | script.js:1694-1695 | the intended split reads "00091 - PARACETAMOL" as "00091" and "PARACETAMOL" |
| `LoginForm.ActiveUser` | script.js:2181-2186 | the pre-check finds an active record with exactly the entered name, and none exactly when there is no such record |
| `LoginForm.SubmitLogin` | script.js:2146-2241 | the handler returns the outcome `Submit` defines; it never writes the user list, and leaves the session unchanged, started by `auth.login`, or ended by its own `logout()` |
| `LoginForm.SubmitSuccess` | script.js:2203-2231 | a successful login is `auth.login` on the trimmed name and keeps its session; an administrator gets in only through "admin", anyone else only into the centre they selected |
| `LoginForm.RejectedBeforeLogin` | script.js:2163-2201 | every rejection before `auth.login` leaves the session as it was; a missing access type or centre is reported as such |
| `LoginForm.LoginUsesPreFound` | script.js:2182-2204 | with unique names the record `auth.login` uses has the role the pre-check looked at |
| `LoginForm.UniqueNamesAccessMatchesRole` | script.js:2188-2220 | with unique names a successful login has the administrator role exactly for access type "admin", and the late administrator check never fires for the two offered access types |
| `LoginForm.DuplicateNameAdminAccess` | script.js:2182-2204 | with an administrator and a centre user both named "x", the centre user gets in through the "admin" access type |
| `LoginForm.MismatchKeepsSession` | script.js:2210-2214 | as written, a centre user who selects another centre is rejected yet keeps the session `auth.login` stored |
| `LoginForm.SubmitIntended` | script.js:2210-2219 | with a logout on the centre mismatch, a rejected login never leaves a started session; results are unchanged |

## Left out

- DOM and UI work is not modelled: rendering, event listeners, autocomplete, modals, notifications, focus, form resets and `location.reload()`. It has no behaviour to state. The answers to `confirm` are boolean inputs.
- Catalogue loading is not modelled: the `fetch`, the spreadsheet parsing and the fallback catalogues are network I/O and a third-party library.
- The workbook export is not modelled (`exportarCSV`, `crearHojaResumen`, the text joined from the top products). It is library calls and a file download. `separarCodigoProducto` and `generarResumenPorCentro` are modelled on their own.
- Floating-point values are not modelled: `cobertura`, `coberturaPromedio` and `toFixed`. The 0.3 ratio of `obtenerClaseDemanda` is restated as the integer inequality 10·d ≥ 3·r, and quantities are whole numbers.
- Records.ValidateForm: a quantity that `parseFloat` reads as NaN is not modelled. Quantities arrive as integers, so the `isNaN` half of the two quantity checks never fires.
- Records.DemandStore.Add: the second `obtenerUsuarioActual()` check (script.js:1319-1323) cannot fail once authentication has been checked, so it has no outcome of its own.
- `calcularDemanda` is not modelled: it only logs.
- Clock and randomness are parameters: record and user ids and ISO timestamps are inputs.
- Users.CreatePreservesUniqueIds: freshness of the random id is a precondition, not a fact proved about `Math.random`.
- Logging is not modelled: console and audit logging, including the credential dumps in `login`, has no functional effect.
- JSON and localStorage are not modelled byte by byte: the two persisted entries are fields. The session slot holds either a session written by `login` or text that `JSON.parse` rejects, so it is `Absent`, `Valid` or `Corrupt`.
- Auth.AuthSystem.LoadSession: a slot whose text parses to something other than a session (for example "0", which `cargarSesion` adopts and `estaAutenticado` then reports as truthy with no role) is not modelled. `login` never writes such text.
- `obtenerTodosLosUsuarios` and `obtenerUsuarioActual` are the fields `users` and `current`; `estaAutenticado` and `esAdmin` are the predicates `IsAuthenticated` and `IsAdmin`.
- A JavaScript string holding an unpaired surrogate has no Dafny string as its source, because a Dafny `char` is a Unicode scalar value. Such strings are not modelled; `Text.FromUtf16` reads a lone surrogate as U+FFFD.
- PasswordHash.FoldExactInDoubles: exact double arithmetic is proved only for passwords of up to 2^20 code units.
- Reports.SortByTotal: the sort is stable, as ECMAScript requires, but the contract states only the permutation and the order by total, not that ties keep their insertion order.
- Reports.Tallies: a JavaScript object lists integer-like keys (a centre or product named "123") first, in numeric order. The model keeps insertion order for every key. So the order of the rows can differ, and when more than five products tie, which of them survive `.slice(0, 5)` can differ too.
- Reports.Tallies: keys inherited from `Object.prototype` are not modelled. For a centre named "toString", `!resumen[centro]` (script.js:1785) is false and script.js:1799 throws a TypeError. For a product named "constructor", the total at script.js:1824-1827 becomes a string.
- The login form's early return when its DOM elements are missing is not modelled.
- The statistics panel (`actualizarEstadisticas`) and the table filter are not modelled: they are display only.
- add_cod_pre.py is not modelled: it is a spreadsheet column insertion through a library.
- The console scripts test-consola.js and LIMPIAR_Y_PROBAR.js are not modelled as such: their expectation, that 'admin' / 'admin123' logs in on the seeded store, is `Users.DefaultAdminLogsIn` and `Auth.ResetThenAdminLogin`.
- Races between browser tabs on the read-modify-write of localStorage are not modelled: they are a concurrency problem.

## Findings

| source | as written | input that shows it | evidently intended | confidence | as-written member | corrected member |
|---|---|---|---|---|---|---|
| script.js:1691-1695 | the first pattern's `\[?` is optional, so it also accepts a bare leading code, and the second pattern, written for "code - name", is never reached on one-line text | "00091 - PARACETAMOL" splits into "00091" and "- PARACETAMOL" | the name "PARACETAMOL", as the second pattern's `-?` intends | not executed | `ProductCode.DashKeptInName` | `ProductCode.SplitProductCodeIntended` |
| script.js:2210-2214 | the centre-mismatch rejection throws after `auth.login` has stored the session and does not log out | a 'usuario' of centre "A" logging in with centre "B" selected is told to pick again but stays logged in, in memory and in storage | no session after a rejection, as the administrator branch at script.js:2217-2219 ensures with `auth.logout()` | not executed | `LoginForm.MismatchKeepsSession` | `LoginForm.SubmitIntended` |
