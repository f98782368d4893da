# Job-order product grid, modelled in Dafny

This project models the core of a garment-factory billing system's job-order screen.
The screen is mostly a spreadsheet-like grid of product lines. Each line has a serial
number, a product, width, length, flop, gauge, remarks, pieces, weight, a computed
required weight, a rate basis (per piece or per weight) and a rate. The model covers:

- the per-keystroke field validator and the required-weight formula;
- the static column and form tables;
- the row operations of the `useProductTable` hook, including its keyboard handler
  (arrow navigation that skips read-only columns, Enter that walks the row, flags rows
  whose product is missing, and appends a row at the end);
- the grid component's key-routing wrapper, its product filter and its totals row;
- the searchable `Select` control (open state, filter, highlight, forwarding of keys);
- the older copy of the same screen in `src/app/page.tsx`, each duplicate related to
  the shared version it copies.

Every handler is a pure function from the current state to the next state. Where the
program moves DOM focus, the model returns the cell to be focused (`ProductGrid.Focus`).
Where it calls a parent callback, the model returns a notice (`SelectControl.Notice`).
Numbers are exact reals. `parseFloat(s) || 0` is modelled on the strings the validator
admits, and `toFixed(3)` rounds to the nearest thousandth.

Files, one module each: `text.dfy` (strings, search filter, trim), `validators.dfy`,
`numbers.dfy` (parse and `toFixed(3)`), `formatters.dfy`, `constants.dfy`, `rows.dfy`,
`keyboard.dfy` (keys and highlight arithmetic), `navigation.dfy` (column arithmetic),
`grid.dfy` (the hook), `producttable.dfy` (the component), `select.dfy`, `legacy.dfy`.

## Model

| member | source | states |
|---|---|---|
| Validators.ValidateInput | src/utils/validators.ts:1-20 | The result is the input when it matches the field's grammar and empty otherwise. Width, length, flop and rate take up to two decimals; gauge and pieces take digits only; weight takes up to three decimals; any other field is free text. The result always matches its own grammar. |
| Validators.TestDecimal | src/utils/validators.ts:3-12 | The two-pass scan (integer digits, one optional point, fraction digits) answers true exactly when the string matches `^\d*(\.\d{0,n})?$`. |
| Validators.ValidateIdempotent | src/utils/validators.ts:1-20 | Validating an already validated value changes nothing. |
| Validators.GrammarNesting | src/utils/validators.ts:3-12 | Digits-only values are two-decimal values, and two-decimal values are three-decimal values. |
| Validators.DecimalEdgeCases | src/utils/validators.ts:3-12 | A lone point and a trailing point are accepted; a third fraction digit is accepted only for weight. |
| Validators.DecimalRejections | src/utils/validators.ts:3-12 | A second point, a minus sign or a letter is rejected. |
| Text.FilterBySearch | src/components/ui/Select.tsx:50-52 | The filtered list keeps, in their original order, exactly the items whose lower-cased text contains the lower-cased search. Each kept item appears as often as in the input, and nothing else appears. |
| Text.FilterEmptySearch | src/components/ui/Select.tsx:50-52 | An empty search keeps every option, in order. |
| Text.TrimEmptyIff | src/components/features/ProductTable.tsx:55 | `trim()` of a string is empty exactly when every character is white space. |
| Numbers.ParseEdgeCases | src/utils/formatters.ts:11-14 | `parseFloat(x) \|\| 0` gives 0 for "" and ".", 5 for "5." and 0.5 for ".5". |
| Numbers.ParseOrZero | src/utils/formatters.ts:11-14 | `parseFloat(x) \|\| 0` is never negative. On a digits-only string it is the string's integer value. On a string of digits, a point and digits, it is the integer part plus the fraction digits' value. |
| Numbers.ParsePointAt | src/utils/formatters.ts:11-14 | On a validated decimal string the parse is the integer part plus the fraction digits' value. |
| Numbers.ToFixed3RoundTrip | src/utils/formatters.ts:17-18 | Reading back the three-decimal text gives the value rounded to the nearest thousandth, within half a thousandth, and the text is a valid weight string. |
| Numbers.ZeroRendering | src/utils/formatters.ts:20 | The literal "0.000" is what zero prints with three decimals. |
| Formatters.FormatDate | src/utils/formatters.ts:1-4 | A missing date formats as "". Otherwise the result is a prefix of the ISO timestamp with no "T" in it, followed in the timestamp by a "T" when it is not the whole text: the part before the first "T". |
| Formatters.FormatIsoDate | src/utils/formatters.ts:1-4 | A timestamp `YYYY-MM-DDT...` formats to its ten-character calendar date. |
| Formatters.ReqWgtValueClosedForm | src/utils/formatters.ts:16-17 | The formula `w*l / (g/3300) / 1000 * p` equals `3.3*w*l*p/g`. |
| Formatters.ReqWgtValuePositive | src/utils/formatters.ts:16-17 | The formula is strictly positive on positive inputs. |
| Formatters.CalculateReqWgt | src/utils/formatters.ts:6-22 | The result is "0.000" unless all four dimensions parse to positive numbers. Otherwise it reads back to `3.3*w*l*p/g` within half a thousandth. It is always a valid weight string. |
| Formatters.ReqWgtPositiveReadsBack | src/utils/formatters.ts:16-18 | With positive dimensions and an exact weight of at least half a thousandth, the shown weight is positive. |
| Formatters.ReqWgtSymmetric | src/utils/formatters.ts:6-22 | Swapping width and length does not change the result. |
| Formatters.ReqWgtEmptyField | src/utils/formatters.ts:11-21 | An empty dimension yields "0.000" whatever the others hold. |
| Formatters.ReqWgtExample | src/utils/formatters.ts:6-22 | Width 10, length 20, gauge 50 and 100 pieces give "1320.000". |
| Constants.TableColumns | src/constants/index.ts:63-137 | There are twelve columns. Only the serial number (0) and required weight (9) are read-only. The product dropdown is column 1 with no fixed options. The rate-basis select is column 10 with the options Piece and Weight. No other column is a dropdown. |
| Constants.ColumnOrder | src/constants/index.ts:63-137 | The column keys in display order. |
| Constants.FormFields | src/constants/index.ts:9-61 | There are seven header fields. Only the measurement dropdown carries fixed options (CM, INCH). The order date, P.O. date and due date are the date fields. |
| Constants.FormFieldOrder | src/constants/index.ts:9-61 | The header field keys in tab order. |
| Constants.FindIndex | src/hooks/useProductTable.ts:82 | `findIndex` returns -1 exactly when the key is absent, and otherwise the first position holding it. |
| Constants.NamedColumnIndices | src/constants/index.ts:63-137 | The product, weight, rate-basis and rate columns are found at 1, 8, 10 and 11. |
| Rows.Set | src/hooks/useProductTable.ts:47-48 | Writing one cell changes that cell only. |
| Rows.EmptyRow | src/hooks/useProductTable.ts:7-19 | The template row is blank in every cell except the rate basis, which is "Piece". |
| Rows.InitialRows | src/hooks/useProductTable.ts:21-24 | There are n rows, numbered 1 to n, each the template row. |
| Rows.AddRow | src/hooks/useProductTable.ts:37-40 | The old rows are kept, and one template row numbered after the last is appended. |
| Rows.HandleChange | src/hooks/useProductTable.ts:42-59 | Only the edited row changes. The edited cell gets the validated value, and the other cells keep theirs. Editing a dimension recomputes the required weight from the updated row; editing anything else keeps it. |
| Rows.InitialRowsValid | src/hooks/useProductTable.ts:21-24 | The initial table has dense serial numbers, every cell valid for its column, and a consistent required weight. |
| Rows.AddRowPreservesValid | src/hooks/useProductTable.ts:37-40 | Appending a row keeps the table invariant. |
| Rows.EditedRowWellFormed | src/hooks/useProductTable.ts:47-48 | A validated value written into one cell of a well-formed row leaves every cell valid for its column. |
| Rows.EditedRowConsistent | src/hooks/useProductTable.ts:50-57 | When the required weight is recomputed after a dimension edit, and kept after any other edit, it stays consistent with the row's dimensions. |
| Rows.HandleChangePreservesValid | src/hooks/useProductTable.ts:42-59 | Editing any editable cell keeps the table invariant, so the required weight always matches the dimensions. |
| Rows.HandleChangeIdempotent | src/hooks/useProductTable.ts:42-59 | Entering the same value twice has the effect of entering it once. |
| Keyboard.HighlightInRange | src/hooks/useProductTable.ts:123-140 | From no highlight or any entry of a non-empty list, both arrow moves land on an entry. |
| Keyboard.HighlightInverse | src/hooks/useProductTable.ts:123-140 | On the entries of a list, ArrowDown and ArrowUp undo each other. |
| Keyboard.HighlightFromNone | src/components/ui/Select.tsx:72-81 | With nothing highlighted, ArrowDown picks the first entry and ArrowUp the last. |
| Navigation.NextWrapping | src/hooks/useProductTable.ts:155-162 | The next column stays in range and wraps from the last column to the first. |
| Navigation.SkipReadOnlyWrappingFinds | src/hooks/useProductTable.ts:163-166 | If an editable column lies ahead, the skip loop stops on the first editable column, and every column it passed is read-only. |
| Navigation.ColumnArrow | src/hooks/useProductTable.ts:153-171 | An arrow key lands on an editable column, and every column between the neighbour and the target is read-only. |
| Navigation.NextEditableFrom | src/hooks/useProductTable.ts:207-210 | The result is the first editable column at or after c, or the column count when there is none. |
| Navigation.EnterTarget | src/hooks/useProductTable.ts:207-231 | Enter stays in the row exactly when an editable column follows, and then lands on the nearest one. Otherwise it goes to the next row's first editable column, or asks for a new row when on the last row. |
| Navigation.GridColumnsFacts | src/constants/index.ts:63-137 | The first editable column of the grid is the product column. |
| Navigation.ArrowUpReturnsToSameColumn | src/hooks/useProductTable.ts:153-171 | ArrowUp from the product column or the rate basis lands back on the same column, because the column before each is read-only and the skip runs forwards. |
| Navigation.ArrowDownSkipsAndWraps | src/hooks/useProductTable.ts:153-171 | ArrowDown from the weight skips the required weight to the rate basis. From the rate it wraps past the serial number to the product. |
| Navigation.EnterFromWeightAndRate | src/hooks/useProductTable.ts:207-231 | Enter from the weight goes to the rate basis. From the rate it goes to the next row's product cell, or appends a row. |
| ProductGrid.InitialState | src/hooks/useProductTable.ts:21-35 | On mount there are n template rows, the dropdown is closed, the search is empty, nothing is highlighted and nothing is marked. |
| ProductGrid.FilteredProducts | src/components/features/ProductTable.tsx:119-121 | The dropdown lists the catalogue products matching the search, in catalogue order, each as often as in the catalogue. |
| ProductGrid.AddRowState | src/hooks/useProductTable.ts:37-40 | Adding a row appends a template row and an unmarked slot and leaves the dropdown alone. |
| ProductGrid.ChangeCell | src/hooks/useProductTable.ts:42-59 | A cell edit changes the rows only. |
| ProductGrid.HandleProductChange | src/hooks/useProductTable.ts:61-73 | Typing makes the text the search, opens the dropdown on that row and highlights the first entry. An empty text clears the stored product; otherwise the product is untouched. |
| ProductGrid.AfterProductColumn | src/hooks/useProductTable.ts:82-90 | The first editable column after the product is the width (2). |
| ProductGrid.SelectProduct | src/hooks/useProductTable.ts:75-93 | Choosing a product stores it through the cell edit, closes the dropdown, clears the search and highlight, keeps the marks, and focuses the width cell. |
| ProductGrid.Mark | src/hooks/useProductTable.ts:190-194 | Marking sets the row's slot to the row index and keeps every other slot. Writing past the end grows the array with unmarked slots. |
| ProductGrid.Highlighted | src/hooks/useProductTable.ts:141-149 | Enter has a choice exactly when the highlight is on a non-empty entry of the filtered list; that choice is a catalogue product matching the search. |
| ProductGrid.InitialStateInvariant | src/hooks/useProductTable.ts:21-35 | The initial state satisfies the hook's invariant: a valid table, one well-formed mark slot per row, the dropdown on an existing row, and a sane highlight. |
| ProductGrid.AddRowStateInvariant | src/hooks/useProductTable.ts:37-40 | Adding a row keeps the invariant. |
| ProductGrid.ChangeCellInvariant | src/hooks/useProductTable.ts:42-59 | Editing any editable cell keeps the invariant. |
| ProductGrid.HandleProductChangeInvariant | src/hooks/useProductTable.ts:61-73 | Typing into a product cell keeps the invariant. |
| ProductGrid.SelectProductInvariant | src/hooks/useProductTable.ts:75-93 | Choosing a product keeps the invariant. |
| ProductGrid.MarkWellFormed | src/hooks/useProductTable.ts:190-194 | Marking keeps every slot either empty or equal to its own index. |
| ProductGrid.DropdownKeyInvariant | src/hooks/useProductTable.ts:115-150 | The dropdown's arrow and Enter handling keep the invariant. |
| ProductGrid.EnterKeyInvariant | src/hooks/useProductTable.ts:183-232 | Enter outside the dropdown keeps the invariant, including when it appends a row. |
| ProductGrid.DropdownKey | src/hooks/useProductTable.ts:115-150 | In the open dropdown, a key either requests no focus or, when a product is chosen, focuses the width cell of the same row. |
| ProductGrid.EnterKey | src/hooks/useProductTable.ts:183-232 | Enter always focuses a cell of the same row or of the next one. |
| ProductGrid.HandleTableKeyDown | src/hooks/useProductTable.ts:95-233 | The hook never moves focus out of the grid: it focuses nothing, or a cell of the same row or of the next one. |
| ProductGrid.HandleTableKeyDownInvariant | src/hooks/useProductTable.ts:95-233 | Every key the grid handler receives keeps the invariant. |
| ProductGrid.ArrowKeysOnlyMoveFocus | src/hooks/useProductTable.ts:153-171 | Outside an open dropdown, arrows change no state and focus an editable cell of the same row. |
| ProductGrid.DropdownArrowsMoveHighlight | src/hooks/useProductTable.ts:123-140 | In the open dropdown, arrows change only the highlight, which stays on an entry of a non-empty list, and request no focus. |
| ProductGrid.DropdownEnterSelects | src/hooks/useProductTable.ts:141-149 | Enter in the open dropdown stores the highlighted product (from the catalogue and matching the search), closes the dropdown and focuses the width. With nothing highlighted it does nothing. |
| ProductGrid.EnterMarksUnlistedProduct | src/hooks/useProductTable.ts:187-210 | Enter on a closed product cell marks the row exactly when its product is empty or not in the catalogue (or it was already marked), leaves the rows alone and focuses the width. |
| ProductGrid.EnterOnLastColumn | src/hooks/useProductTable.ts:211-229 | Enter on the rate cell focuses the next row's product. On the last row it first appends exactly one row; otherwise the state is unchanged. |
| ProductGrid.RateShortcut | src/hooks/useProductTable.ts:173-180 | P or p in the rate-basis cell sets it to Piece, and W or w sets it to Weight. Only the rows change. |
| ProductGrid.MarksAreNeverCleared | src/hooks/useProductTable.ts:95-233 | No key clears a mark: a flagged row stays flagged. |
| ProductGrid.MarksOnlyUnlisted | src/hooks/useProductTable.ts:95-233 | The key handler sets a new mark only through Enter on a closed product cell whose product is empty or not in the catalogue. Every other key keeps the marks, or appends an empty slot with a new row. |
| ProductTable.ProductBlankIff | src/components/features/ProductTable.tsx:55 | The wrapper's blank-product test holds exactly when the product is all white space. |
| ProductTable.OnKeyDownWrapper | src/components/features/ProductTable.tsx:30-65 | With the row's dropdown open on the product column, and in every other column, keys go to the hook unchanged. With the dropdown closed on the product column, ArrowUp in the first row asks to leave the grid backwards, and Enter on a blank product asks to jump to the remarks. Each asks only when the parent supplied that callback, and neither changes the state. Every other key in that cell goes to the hook unchanged. |
| ProductTable.ProductFocus | src/components/features/ProductTable.tsx:138-142 | Focusing a product cell closes the dropdown and clears the highlight, and nothing else changes. |
| ProductTable.ProductCellText | src/components/features/ProductTable.tsx:132-136 | A product cell shows the search while its dropdown is open, and the stored product otherwise. |
| ProductTable.ArrowUpFromFirstProductLeaves | src/components/features/ProductTable.tsx:39-47 | ArrowUp in the first product cell with its dropdown closed focuses the control before the grid and changes nothing. |
| ProductTable.EnterOnBlankProductJumpsToRemarks | src/components/features/ProductTable.tsx:49-61 | Enter in a blank product cell with its dropdown closed jumps to the remarks and changes nothing. |
| ProductTable.UnlistedStoredProductFlagged | src/components/features/ProductTable.tsx:49-64 | Enter on a closed product cell whose stored product is non-blank and not in the catalogue reaches the hook. The hook flags the row and moves to the width cell. |
| ProductTable.BlankProductNeverFlagged | src/components/features/ProductTable.tsx:30-65 | Through the wrapper, Enter in a blank product cell never marks the row. |
| ProductTable.InitialListed | src/hooks/useProductTable.ts:21-24 | Every stored product of the initial grid is empty. |
| ProductTable.TypingKeepsListed | src/hooks/useProductTable.ts:61-73 | Typing into a product cell stores no product other than "": every stored product stays empty or in the catalogue. |
| ProductTable.ClickKeepsListed | src/components/features/ProductTable.tsx:153-160 | Clicking an entry of the filtered list stores a catalogue product, so every stored product stays empty or in the catalogue. |
| ProductTable.EditKeepsListed | src/components/features/ProductTable.tsx:170-185 | Editing any other field leaves the stored products empty or in the catalogue. |
| ProductTable.WrapperKeepsListed | src/components/features/ProductTable.tsx:30-65 | No key through the wrapper stores a product outside the catalogue: it stores a highlighted catalogue entry or appends an empty row. |
| ProductTable.ListedRowsNeverFlagged | src/components/features/ProductTable.tsx:30-65 | When every stored product is empty or in the catalogue, no key through the wrapper sets a new mark. |
| ProductTable.OnKeyDownWrapperInvariant | src/components/features/ProductTable.tsx:30-65 | The wrapper keeps the hook's invariant. |
| ProductTable.ProductFocusInvariant | src/components/features/ProductTable.tsx:138-142 | Focusing a product cell keeps the invariant. |
| ProductTable.ColumnTotal | src/components/features/ProductTable.tsx:196-203 | A column total is never negative, and it is zero for no rows. |
| ProductTable.TotalPieces | src/components/features/ProductTable.tsx:196-199 | The pieces total is the sum of the column's parsed values (the back fold of `ColumnTotalIsSum`) and is never negative. `ColumnTotalAppend` and `ColumnTotalUpdate` give its change per row. |
| ProductTable.TotalWeight | src/components/features/ProductTable.tsx:200-203 | The weight total is the sum of the column's parsed values (the back fold of `ColumnTotalIsSum`) and is never negative. `ColumnTotalAppend` and `ColumnTotalUpdate` give its change per row. |
| ProductTable.TotalWeightText | src/components/features/ProductTable.tsx:234 | The shown weight total reads back within half a thousandth of the exact total. |
| ProductTable.ColumnTotalAppend | src/components/features/ProductTable.tsx:196-203 | Appending a row adds its parsed value to the total. |
| ProductTable.ColumnTotalUpdate | src/components/features/ProductTable.tsx:196-203 | Replacing one row changes the total by the difference of the old and new values. |
| ProductTable.InitialTotals | src/components/features/ProductTable.tsx:196-203 | A table of template rows totals zero pieces and zero weight. |
| ProductTable.AddRowKeepsTotals | src/components/features/ProductTable.tsx:196-203 | Adding a row leaves both totals unchanged. |
| ProductTable.HandleChangeTotals | src/components/features/ProductTable.tsx:196-203 | Editing a cell moves the pieces total only through a pieces edit, and the weight total only through a weight edit, each by the difference of the parsed values. |
| SelectControl.Initial | src/components/ui/Select.tsx:38-47 | On mount the control is closed, with no search and nothing highlighted. |
| SelectControl.IsOpen | src/components/ui/Select.tsx:38-40 | The open state is the parent's `isOpen` when given, and the control's own otherwise. |
| SelectControl.SetIsOpen | src/components/ui/Select.tsx:41-44 | The parent is told of every open request when it listens. The control's own state changes only when it owns the open state. |
| SelectControl.Filtered | src/components/ui/Select.tsx:50-52 | The listed options are those matching the search, in order, each as often as in the options. |
| SelectControl.Forward | src/components/ui/Select.tsx:93 | The key is passed to the parent last, and only when the parent listens. |
| SelectControl.OwnKeyReaction | src/components/ui/Select.tsx:70-91 | A closed control reacts to no key itself. An open control closes on Escape and on Tab, through `setIsOpen(false)`. The control's own reaction never forwards a key. |
| SelectControl.OnInput | src/components/ui/Select.tsx:108-119 | A read-only control ignores typing. Otherwise the text becomes the search and the highlight is kept. A closed control then requests to open through `setIsOpen(true)`; an open one emits nothing. |
| SelectControl.OnClick | src/components/ui/Select.tsx:127-129 | A read-only control ignores clicks. Otherwise a click toggles the open state. |
| SelectControl.OnOptionClick | src/components/ui/Select.tsx:147-150 | Clicking a listed option reports it to the parent first (it is one of the options). Then the control closes through `setIsOpen(false)`, in its state and in its notices. |
| SelectControl.AfterRender | src/components/ui/Select.tsx:54-58 | The search is cleared exactly when the control has just closed. |
| SelectControl.Shown | src/components/ui/Select.tsx:107 | The input shows the search while open, and the value otherwise. |
| SelectControl.KeysAlwaysForwarded | src/components/ui/Select.tsx:70-94 | The parent receives every key, as the last notice, exactly when it listens for keys. |
| SelectControl.ClosedIgnoresKeys | src/components/ui/Select.tsx:70-93 | A closed control only forwards the key. |
| SelectControl.EnterReportsHighlighted | src/components/ui/Select.tsx:82-88 | Enter reports a choice exactly when the control is open and the highlight is on a non-empty entry. The choice is that entry, an option matching the search. Otherwise no state changes and nothing is reported. |
| SelectControl.ArrowsStayInList | src/components/ui/Select.tsx:72-81 | In an open, non-empty list the arrows keep the highlight on an entry, keep the search, and undo each other. |
| SelectControl.EscapeOrTabClosesAndClears | src/components/ui/Select.tsx:88-89 | Escape or Tab closes a self-owned control. After the effect the search is empty, the highlight is kept, and a listening parent hears the close. |
| SelectControl.ControlledAsksParent | src/components/ui/Select.tsx:41-44 | A control whose open state belongs to a listening parent asks it to close on Escape or Tab. Typing into it while closed asks the parent to open it. |
| SelectControl.ControlledNeverOpensItself | src/components/ui/Select.tsx:41-44 | A control whose open state belongs to the parent never changes its own open flag. |
| SelectControl.ClickTwiceRestores | src/components/ui/Select.tsx:127-129 | Two clicks on an editable, self-owned control restore its state. |
| SelectControl.TypingOpens | src/components/ui/Select.tsx:108-119 | Typing into a closed, editable, self-owned control opens it and shows the typed text, and the effect keeps that search. |
| LegacyPage.LegacyTableColumns | src/app/page.tsx:119-193 | The page has the same twelve columns, with the fixed product catalogue on the product dropdown. |
| LegacyPage.LegacyColumnsAgree | src/app/page.tsx:119-193 | The page's columns equal the shared ones except for the product options. |
| LegacyPage.LegacyValidateInput | src/app/page.tsx:263-282 | The page's validator agrees with the shared one on every field and value. |
| LegacyPage.LegacyCalculateReqWgt | src/app/page.tsx:251-261 | The page's weight formula, read from a whole row, agrees with the shared one on the row's four dimensions. |
| LegacyPage.LegacyHandleChange | src/app/page.tsx:284-295 | The page's cell edit agrees with the hook's. |
| LegacyPage.ReduceIsSum | src/app/page.tsx:307-314 | Folding from the front with a start value gives the start value plus the sum. |
| ProductTable.ColumnTotalIsSum | src/components/features/ProductTable.tsx:196-203 | The component's column total is the sum of the column's parsed values. |
| LegacyPage.LegacyTotals | src/app/page.tsx:307-314 | The page's pieces and weight totals equal the component's. |
| LegacyPage.LegacyInitialState | src/app/page.tsx:226-231 | On mount there are seven template rows, nothing is marked and no dropdown is open. |
| LegacyPage.LegacyAddRow | src/app/page.tsx:315-317 | Adding a row appends a template row and an unmarked slot. |
| LegacyPage.LegacyProductInput | src/app/page.tsx:560-563 | Typing into a product cell sets the search and opens that row's dropdown, without touching the stored product. |
| LegacyPage.LegacyProductFocus | src/app/page.tsx:564 | Focusing a product cell opens its dropdown. |
| LegacyPage.LegacyOptionClick | src/app/page.tsx:577-585 | Clicking a product stores it through the cell edit, closes the dropdown, clears the search and keeps the marks. |
| LegacyPage.LegacyWeightThenRate | src/app/page.tsx:368-378 | Enter goes from the weight to the rate basis and from the rate basis to the rate. |
| LegacyPage.LegacyEnterOnLastColumn | src/app/page.tsx:387-396 | Enter on the rate cell moves to the next row's product cell, appending a row when on the last row. |
| LegacyPage.LegacyEnterInOpenDropdown | src/app/page.tsx:329-340 | Enter in the open product dropdown closes it, clears the search and moves nowhere. It marks the row when the stored product is not in the catalogue. |
| LegacyPage.LegacyEnterOnClosedProduct | src/app/page.tsx:341-366 | With the dropdown closed, Enter on a marked product cell goes to the remarks and clears the mark. On an unmarked cell it goes to the width. |
| LegacyPage.LegacyProductNeverAppends | src/app/page.tsx:328-367 | Enter on the product column never appends a row. |
| LegacyPage.LegacyOnlyEnter | src/app/page.tsx:318-319 | Every key other than Enter is ignored. |
| LegacyPage.LegacyAgreesWithHookOnPlainColumns | src/app/page.tsx:379-386 | On the columns from width to pieces, the page and the hook send Enter to the next cell of the row. |
| LegacyPage.LegacyInitialInvariant | src/app/page.tsx:226-231 | The initial page state satisfies the page's invariant: a valid table, one well-formed mark slot per row, and the dropdown on an existing row. |
| LegacyPage.LegacyHandleKeyDownInvariant | src/app/page.tsx:318-397 | The page's key handler keeps that invariant. |
| LegacyPage.LegacyEventsInvariant | src/app/page.tsx:560-585 | Clicking a product, typing into a product cell and focusing it keep that invariant. |

## Left out

- Number parsing: `parseFloat` is modelled only as the longest `digits[.digits]` prefix. Leading white space, signs, exponents and `Infinity` are not modelled. The validator never lets them into a numeric cell.
- Floating point: all arithmetic is over exact reals. `toFixed(3)` is modelled for finite values with ties rounding up. IEEE-754 rounding of the formula and of the totals, and the exponent form `toFixed` uses from 1e21 up, are not modelled.
- Case folding: `toLowerCase` maps the ASCII letters only.
- Formatters.FormatDate: a `Date` is represented by its `toISOString()` text. Time zones and the conversion from a local date are not modelled.
- DOM effects are not modelled: focus calls, `setTimeout`, `scrollIntoView`, refs and console output. Focus is returned as a value, and every ref is taken to be mounted.
- Setters are not modelled: the hook's exported `setRows` and the other raw React setters. Only the named handlers are modelled.
- Layout is not modelled: column widths, alignment, CSS classes and the number formatting of `totalPieces` on screen.
- The order save path, the database and API clients, the seeders, `OrderForm`, the modals, the header form's customer and measurement handlers in `src/app/page.tsx`, and the product and customer loading hook are not part of this model.
- Navigation.SkipReadOnlyWrapping: the unbounded skip loop is run with a step budget. `SkipReadOnlyWrappingFinds` shows that the table's width is always enough when some column is editable, and the grid's table has editable columns.
- LegacyPage.LegacyHandleKeyDown: `totalCols` is the length of the row's cell-ref array. It is fixed at 12. This is exact when the row is mounted, since the last column, the rate, registers a ref at index 11. An unmounted row is not modelled.
- SelectControl.HandleKeyDown: no contract of its own. Its behaviour is stated by the lemmas about it (`KeysAlwaysForwarded`, `ClosedIgnoresKeys`, `EnterReportsHighlighted`, `ArrowsStayInList`, `EscapeOrTabClosesAndClears`, `ControlledAsksParent`).
- ProductGrid.HandleTableKeyDown: its own contract states only where focus may go. Its state changes are stated by `HandleTableKeyDownInvariant`, `ArrowKeysOnlyMoveFocus`, `RateShortcut`, `MarksAreNeverCleared` and `MarksOnlyUnlisted`.
- ProductGrid.DropdownKey: its own contract states only the focus request. The highlight and selection effects are stated by `DropdownArrowsMoveHighlight` and `DropdownEnterSelects`.
- ProductGrid.EnterKey: its own contract states only which row is focused. Marking and appending are stated by `EnterMarksUnlistedProduct`, `EnterOnLastColumn` and `MarksOnlyUnlisted`, and the target cell by `Navigation.EnterTarget`.

## Notes on the program's behaviour

- Through the grid component's wrapper, Enter on a blank product cell never reaches the hook's "mark an empty product" branch (`ProductTable.BlankProductNeverFlagged`).
- Typing never stores text in a row's product. It only sets the search, and it clears the product when the text is empty. Products are stored only from the filtered catalogue. So through the grid's own events every stored product is empty or in the catalogue, and no row is ever flagged (`ProductTable.TypingKeepsListed`, `ProductTable.ClickKeepsListed`, `ProductTable.WrapperKeepsListed`, `ProductTable.ListedRowsNeverFlagged`). A row is flagged only when it holds a product that is not in the catalogue (`ProductTable.UnlistedStoredProductFlagged`). That happens only for rows loaded through the hook's `setRows`, or after the catalogue changes.
- The formula gives 1320.000 for width 10, length 20, gauge 50 and 100 pieces (`Formatters.ReqWgtExample`).
- The hook never clears a mark once it is set (`ProductGrid.MarksAreNeverCleared`). The older page clears it when Enter sends the user to the remarks.
- The older page's Enter on the product column never appends a row (`LegacyPage.LegacyProductNeverAppends`). In the open dropdown it checks the stored product, not the search text.
- `Select` never resets its highlight when it closes. Enter is guarded by the highlighted entry existing in the current filtered list.
