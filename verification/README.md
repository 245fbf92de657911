# Receivable report, credit limit and record merge: a Dafny model

This project models the pure rules inside three Odoo add-ons.

- **biz_detail_of_receivable_report** prints a receivable/payable report and a
  per-partner debt notice in Vietnamese. The model covers:
  - amounts spelled in Vietnamese words (`config.py`), and a reader that turns
    those words back into numbers;
  - formatted amount texts read back into digits, a value and a currency
    symbol (`models/common.py`);
  - the account-type filter: its options, display name, search domain and
    column title;
  - the one-line company address;
  - the "totals below sections" injection;
  - the partner summary table of the printed report;
  - the debt-notice ledger and its ending balance.
- **ytv_credit_limit** refuses to confirm a sale order when the commercial
  partner's receivable plus the order would exceed the partner's credit
  limit, unless the user is a credit approver. It also forbids negative
  limits.
- **deltatech_merge_product** is a wizard that merges records:
  - preconditions: 2 up to the maximum objects, and no ancestor/descendant
    pair;
  - the destination is the oldest record;
  - field merge: the last truthy value wins, and summable fields add up;
  - the option → selection → finished screens.

The framework's report-line generator, the ORM and the database are not
modelled. Their outputs become inputs:
- the flat list of report lines;
- a store of records;
- the currency converter, the partner's receivable and the user's approver
  group;
- the reader that turns column text into amounts.

Other modelling choices:
- Monetary amounts are integers, in the units the reports print.
- Python exceptions (`IndexError`, `ValueError`, `TypeError`, `UserError`)
  become `None` or an error variant.

Modules, one per source component:

| file | module | models |
|---|---|---|
| wrappers.dfy | Wrappers | `Option` |
| text.dfy | Text | join, split, replace, case mapping of `str` |
| vn_words.dfy | VietnameseNumber | `config.py` and an independent word-by-word reading |
| vn_words_parse.dfy | VietnameseNumberParse | a parser of the words, the round trips |
| number_split.dfy | NumberSplit | `_get_number_split` as written and as corrected |
| report_lines.dfy | ReportLines | the report-line records |
| account_type_options.dfy | AccountTypeOptions | options, display name, domain, title |
| company_address.dfy | CompanyAddress | `get_address_by`, `get_company_address` |
| totals_below.dfy | TotalsBelow | `_add_totals_below_sections`, `_genarate_new_total_line` |
| receivable_summary.dfy | ReceivableSummary | `get_format_data_lines` |
| debt_notice.dfy | DebtNotice | `get_line_table`, `get_lasted_lines`, `format_number` |
| credit_limit.dfy | CreditLimit | the sale-order gate and the partner constraint |
| merge_wizard.dfy | MergeWizard | `_merge`, `_update_values`, the wizard screens |

## Model

| member | source | states |
|---|---|---|
| VietnameseNumber.ConvertNNReads | develop/biz_detail_of_receivable_report/config.py:10-24 | `_convert_nn` spells every number below 100 as the word-by-word reference reading does |
| VietnameseNumber.ConvertNNNReads | develop/biz_detail_of_receivable_report/config.py:44-56 | `_convert_nnn` spells every number from 1 to 999 as the reference reading does |
| VietnameseNumber.VietnamNumberReads | develop/biz_detail_of_receivable_report/config.py:26-42 | below 10^15 `vietnam_number` gives exactly the reference reading; from 10^15 on no denomination matches and it returns None |
| VietnameseNumber.VietnamNumberSmall | develop/biz_detail_of_receivable_report/config.py:3-14 | 0 reads "không", and 1..19 read as their table entry |
| VietnameseNumber.VietnamNumberTens | develop/biz_detail_of_receivable_report/config.py:15-24 | 20..99 read as the tens word alone for a round ten, else the tens word and the unit word; unit 1 is "mốt", and 5 stays "năm" because the "lăm" assignment is overwritten |
| VietnameseNumber.VietnamNumberHundreds | develop/biz_detail_of_receivable_report/config.py:44-56 | 100..999 read as "h trăm", "h trăm lẻ u" for a remainder of 1-9, or "h trăm" and the remainder's text |
| VietnameseNumber.VietnamNumberGroups | develop/biz_detail_of_receivable_report/config.py:31-42 | from 1000 to 10^15: the leading group's text and its denomination (never the last table entry), then "lẻ " before a remainder below 100 and the remainder's text |
| VietnameseNumberParse.WordsParse | develop/biz_detail_of_receivable_report/config.py:3-56 | every reference reading below 10^15 parses back to its number |
| VietnameseNumberParse.ReadSpelled | develop/biz_detail_of_receivable_report/config.py:26-42 | the spelled text of every number below 10^15 reads back as that number |
| VietnameseNumberParse.VietnamNumberReadBack | develop/biz_detail_of_receivable_report/config.py:26-42 | `vietnam_number` has a text exactly for the numbers below 10^15, and that text reads back as the number |
| VietnameseNumberParse.VietnamNumberInjective | develop/biz_detail_of_receivable_report/config.py:26-42 | no two numbers share a text |
| VietnameseNumberParse.AmountToTextReads | develop/biz_detail_of_receivable_report/config.py:58-71 | a non-negative amount gives the capitalised words and " đồng"; a negative one gives "Âm ", the lower-case words and " đồng"; 0 is not negative; no text from 10^15 on |
| VietnameseNumberParse.AmountToTextReadBack | develop/biz_detail_of_receivable_report/config.py:58-71 | every amount strictly between -10^15 and 10^15 is recovered from its text |
| VietnameseNumberParse.Amount2TextReads | develop/biz_detail_of_receivable_report/report/debt_notif_pdf.py:67-70 | with `integer`, `amount2text` is the lower-cased text before " đồng"; without it, `amount_to_text` unchanged |
| NumberSplit.EmptyInput | develop/biz_detail_of_receivable_report/models/common.py:8-12 | the empty text gives the integer 0 as digit text (None here), the value 0 and the symbol ' ' |
| NumberSplit.EnUsReads | develop/biz_detail_of_receivable_report/models/common.py:4-7 | an en-US text (optional "$ ", optional '-', comma-grouped digits, ".00") gives the digits without commas, the signed value they denote, and ' ' |
| NumberSplit.EnUsGroupedReads | develop/biz_detail_of_receivable_report/models/common.py:4-7 | every signed integer printed comma-grouped with ".00" reads back as itself |
| NumberSplit.ViReads | develop/biz_detail_of_receivable_report/models/common.py:8-12 | a dot-grouped text with an optional ₫ suffix gives the digits without dots and the signed value they denote; the symbol is '' after " ₫" and ' ' otherwise |
| NumberSplit.ViGroupedReads | develop/biz_detail_of_receivable_report/models/common.py:8-11 | every signed integer printed dot-grouped reads back as itself |
| NumberSplit.DigitTextClean | develop/biz_detail_of_receivable_report/models/common.py:7-11 | the returned digit text never holds ',', '.' or an ASCII space |
| NumberSplit.SymbolRule | develop/biz_detail_of_receivable_report/models/common.py:6-12 | the symbol is ' ' exactly when the text has no ASCII space; otherwise it is the second space-separated token with "₫" removed |
| NumberSplit.FractionJoins | develop/biz_detail_of_receivable_report/models/common.py:9-11 | outside the ".00" branch every dot is deleted, so a fraction joins the integer part ("12.50" reads as 1250) |
| NumberSplit.AsWrittenThousands | develop/biz_detail_of_receivable_report/models/common.py:9-11 | as written, m thousand printed with a comma group ("m,000 ₫") reads as 10·m |
| NumberSplit.AsWrittenDropsZeros | develop/biz_detail_of_receivable_report/models/common.py:9-11 | as written, "a,000" with a currency suffix gives the digit text "a0" |
| NumberSplit.FixedThousands | develop/biz_detail_of_receivable_report/models/common.py:9-11 | with ",00" removed only as a decimal tail, "m,000 ₫" reads as 1000·m |
| NumberSplit.FixedReads | develop/biz_detail_of_receivable_report/models/common.py:8-12 | under the correction, every signed integer grouped by dots or commas, with or without a ",00" tail, reads back as itself |
| NumberSplit.FixedAgreesWithoutComma | develop/biz_detail_of_receivable_report/models/common.py:2-12 | the correction changes nothing for a text without a comma |
| ReportLines.ChildrenAre | develop/biz_detail_of_receivable_report/report/account_reports_pdf.py:32-37 | a line is selected as a child exactly when its parent id and level match |
| ReportLines.PartnersAre | develop/biz_detail_of_receivable_report/report/account_reports_pdf.py:30-31 | the partner rows come from exactly the level-2 lines without a parent |
| ReportLines.LastNamed | develop/biz_detail_of_receivable_report/report/account_reports_pdf.py:39-52 | the opening balance is read from a column whose name is set, '' included, with no named column after it; None exactly when no column has one |
| ReportLines.LastFilled | develop/biz_detail_of_receivable_report/report/account_reports_pdf.py:66-78 | the ending balance is read from a column with a non-empty name and none after it; None exactly when there is none |
| ReportLines.AmountReads | develop/biz_detail_of_receivable_report/models/common.py:2-12 | under the corrected reading, the amount read from a column is the number the report printed there; for dot-grouped amounts without a ",00" tail the reading as written gives the same number |
| AccountTypeOptions.InitOptionsShape | develop/biz_detail_of_receivable_report/models/account_report.py:191-214 | the options are the customer/vendor pair or the four trade kinds; without a previous list the defaults stand, otherwise an option is selected iff one with its id was selected before |
| AccountTypeOptions.DefaultSelection | develop/biz_detail_of_receivable_report/models/account_report.py:200-210 | by default trade receivable and trade payable are selected, and nothing in the customised report |
| AccountTypeOptions.ClaimDisjoint | develop/biz_detail_of_receivable_report/models/account_report.py:216-243 | a group is named only when all its ids are still unclaimed, so no id belongs to two named groups |
| AccountTypeOptions.NamedOnce | develop/biz_detail_of_receivable_report/models/account_report.py:216-243 | each selected id is named exactly once, by its group or on its own, and ids not selected are not named |
| AccountTypeOptions.AllFourName | develop/biz_detail_of_receivable_report/models/account_report.py:235-243 | all four trade kinds selected read "All receivable/payable" |
| AccountTypeOptions.DefaultName | develop/biz_detail_of_receivable_report/models/account_report.py:201-243 | the default selection reads "Trade Partners" |
| AccountTypeOptions.CustomerAndVendorName | develop/biz_detail_of_receivable_report/models/account_report.py:216-243 | both partner kinds selected read "Customer and Vendor" |
| AccountTypeOptions.StandardDomain | develop/biz_detail_of_receivable_report/models/account_report.py:281-297 | the standard domain admits an account kind iff a selected option names it, or any listed option when none is selected |
| AccountTypeOptions.StandardUnbound | develop/biz_detail_of_receivable_report/models/account_report.py:286-297 | an unknown first id leaves the domain variable unbound, so the standard path fails |
| AccountTypeOptions.CustomDomain | develop/biz_detail_of_receivable_report/models/account_report.py:260-280 | the customised domain admits every account kind, and each partner flag mirrors the last option carrying its id |
| AccountTypeOptions.EmptyDomain | develop/biz_detail_of_receivable_report/models/account_report.py:260-285 | without an account_type list there is no restriction and the flags stay as they were |
| AccountTypeOptions.TitleRule | develop/biz_detail_of_receivable_report/models/account_report.py:400-414 | the combined title exactly when the selection is not a single option; a single one gives the customer or vendor title by its id, and '' for any other id |
| AccountTypeOptions.PartnerTitleAgreesWithFlags | develop/biz_detail_of_receivable_report/report/account_reports_pdf.py:156-170 | for every selection of the two partner options the domain sets the flags to it; the title is the customer title exactly when the flags are customer and not vendor, the vendor title exactly when vendor and not customer, and the combined title when both or neither are selected |
| AccountTypeOptions.TitlesDistinct | develop/biz_detail_of_receivable_report/report/account_reports_pdf.py:156-170 | the three printed titles, and the three sheet titles, differ from one another |
| CompanyAddress.PartsAreFields | develop/biz_detail_of_receivable_report/models/account_report.py:707-726 | no company gives ''; otherwise the parts are the non-empty street, street2 and city, then the linked state and country names, in that order |
| CompanyAddress.AppendFromEmpty | develop/biz_detail_of_receivable_report/report/account_reports_pdf.py:135-148 | appending ", " between the non-empty parts equals joining them with ", " |
| CompanyAddress.PrintedMatchesJoined | develop/biz_detail_of_receivable_report/report/debt_notif_pdf.py:27-40 | the printed reports and the report model give the same address when linked records carry names |
| CompanyAddress.EmptyStateName | develop/biz_detail_of_receivable_report/models/account_report.py:707-726 | a linked state with an empty name makes the two differ: the join keeps an empty part and its ", " |
| TotalsBelow.AddTotalsBelow | develop/biz_detail_of_receivable_report/models/account_report.py:69-99 | with the feature off, the option set, or no line needing a total, the lines come back unchanged |
| TotalsBelow.InjectRows | develop/biz_detail_of_receivable_report/models/account_report.py:88-99 | every input line is emitted once, in its original order, marked when it opens a section |
| TotalsBelow.OpenSectionTotal | develop/biz_detail_of_receivable_report/models/account_report.py:88-131 | each section still on the stack gets exactly one total, after exactly the lines that stay inside it |
| TotalsBelow.LineSectionTotal | develop/biz_detail_of_receivable_report/models/account_report.py:88-99 | a section opened by a line gets exactly one total, right after that line and the following lines inside it |
| TotalsBelow.TotalsPlacement | develop/biz_detail_of_receivable_report/models/account_report.py:66-131 | standard report with the feature on: lines once and in order, one total per section placed before the first line leaving it, and no other totals |
| TotalsBelow.SumColumns | develop/biz_detail_of_receivable_report/models/account_report.py:111-118 | the debit and credit totals are the sums of columns 5 and 6 over the journal items; None exactly when an item lacks them (the addition raises) |
| TotalsBelow.CustomTotal | develop/biz_detail_of_receivable_report/models/account_report.py:104-124 | no total without journal items; otherwise a level-6 line with 9 columns, the first item's parent, and the two sums |
| TotalsBelow.AddTotalsBelowCustom | develop/biz_detail_of_receivable_report/models/account_report.py:100-124 | the customised report never finishes while a section is open; otherwise it is the standard output, followed by a level-6 total exactly when there are journal items and the first has a parent; that total sits under the first item's parent and carries the sums of columns 5 and 6 |
| TotalsBelow.LastOpensHangs | develop/biz_detail_of_receivable_report/models/account_report.py:101-103 | a report whose last line opens a section leaves it open, so the customised path does not terminate |
| ReceivableSummary.PartnerRow | develop/biz_detail_of_receivable_report/report/account_reports_pdf.py:80-92 | the opening and ending balances fall on one side by their sign, the other side prints "0", and the two sides recombine to the balance |
| ReceivableSummary.FormatDataLines | develop/biz_detail_of_receivable_report/report/account_reports_pdf.py:12-121 | the single accumulating pass prints the same table as the per-partner definition |
| ReceivableSummary.TableShape | develop/biz_detail_of_receivable_report/report/account_reports_pdf.py:80-120 | one row per partner line, numbered from 1 in line order, then the 'Tổng' row whose every cell adds up its column |
| ReceivableSummary.SummaryTable | develop/biz_detail_of_receivable_report/report/account_reports_pdf.py:12-121 | the printed table is that of the level-2 lines without a parent, in order |
| ReceivableSummary.SummaryFigures | develop/biz_detail_of_receivable_report/report/account_reports_pdf.py:39-92 | each row's balances, debit and credit are read from its partner's own lines; an unreadable partner fails the table |
| ReceivableSummary.RowsTotal | develop/biz_detail_of_receivable_report/report/account_reports_pdf.py:93-120 | each total cell equals, up to sign, the sum of that figure over the partners |
| DebtNotice.OpeningAt | develop/biz_detail_of_receivable_report/report/debt_notif_pdf.py:81-104 | the opening row of each level-2 child reads that child's last named column; a child with none repeats the previous amount |
| DebtNotice.OpeningSums | develop/biz_detail_of_receivable_report/report/debt_notif_pdf.py:81-104 | opening rows carry no payment and are all captioned 'Dư đầu kỳ' |
| DebtNotice.IncurredSums | develop/biz_detail_of_receivable_report/report/debt_notif_pdf.py:105-144 | the level-4 rows add the emitted moves' invoice totals as receivables and the payment amounts as payments |
| DebtNotice.IncurredShape | develop/biz_detail_of_receivable_report/report/debt_notif_pdf.py:105-144 | one row per payment line and per invoice line of an emitted move, none flagged as ending balance |
| DebtNotice.IncurredOnce | develop/biz_detail_of_receivable_report/report/debt_notif_pdf.py:124-144 | a move's invoice lines are emitted at most once, even when several lines refer to it |
| DebtNotice.IncurredCovers | develop/biz_detail_of_receivable_report/report/debt_notif_pdf.py:124-144 | every journal-item line refers to a move that is emitted or was seen before |
| DebtNotice.LineTable | develop/biz_detail_of_receivable_report/report/debt_notif_pdf.py:72-178 | no table without lines or without a parent |
| DebtNotice.TableShape | develop/biz_detail_of_receivable_report/report/debt_notif_pdf.py:81-177 | opening rows first, then the level-4 rows, then 'Cộng phát sinh' and 'Dư cuối kỳ', the last alone flagged as ending balance |
| DebtNotice.EndingBalance | develop/biz_detail_of_receivable_report/report/debt_notif_pdf.py:145-177 | ending balance = openings + receivables − payments, and the incurred row holds the latter two |
| DebtNotice.LastedOnTable | develop/biz_detail_of_receivable_report/report/debt_notif_pdf.py:180-185 | `get_lasted_lines` on the table reads back its ending balance |
| DebtNotice.FormatNumberCases | develop/biz_detail_of_receivable_report/report/debt_notif_pdf.py:14-25 | 0 prints as '0'; with `no_format` any other number is returned unchanged; outside vi_VN the text keeps no ',' |
| DebtNotice.RecordIdOfGenericId | develop/biz_detail_of_receivable_report/report/debt_notif_pdf.py:112-123 | a generic line id ending in '~' and digits names that record |
| CreditLimit.CheckCredit | develop/ytv_credit_limit/models/sale_order.py:53-96 | no check without a limit; otherwise blocked iff receivable + converted order − converted limit > 0 and the user is no approver, with that overage reported; an approver always passes |
| CreditLimit.ActionConfirm | develop/ytv_credit_limit/models/sale_order.py:98-101 | the batch is confirmed iff every order passes; otherwise it is refused at the first blocked order |
| CreditLimit.CheckCreditLimitNonNegative | develop/ytv_credit_limit/models/res_partner.py:23-27 | a batch is accepted iff no partner has a negative limit |
| CreditLimit.DefaultCurrencyLimit | develop/ytv_credit_limit/models/res_partner.py:8-13 | a partner created without a limit currency takes the company currency, so an order in that currency shows the limit unconverted |
| MergeWizard.Merge | develop/deltatech_merge_product/wizard/product_merge.py:217-249 | fewer than 2 existing objects: no-op; more than the maximum (default 3): refused, and only then; within the maximum, refused for nesting exactly when the model has parents and one object descends from another; no record is created |
| MergeWizard.MergeEffect | develop/deltatech_merge_product/wizard/product_merge.py:197-249 | other records are kept, the sources deleted, and each copied column of the destination holds the last truthy value, or what it held |
| MergeWizard.Destination | develop/deltatech_merge_product/wizard/product_merge.py:237-242 | the given destination when it is among the objects, all others being sources; else the oldest one |
| MergeWizard.OldestLast | develop/deltatech_merge_product/wizard/product_merge.py:240-242 | the destination is the oldest object (last in input order among ties) and the sources are the rest, newest first |
| MergeWizard.SortSorted | develop/deltatech_merge_product/wizard/product_merge.py:254-259 | records are ordered newest first, a missing date counting as 1970-01-01 |
| MergeWizard.SortLast | develop/deltatech_merge_product/wizard/product_merge.py:254-259 | the last record of the ordering is the oldest, the last in input order among equally old ones |
| MergeWizard.Existing | develop/deltatech_merge_product/wizard/product_merge.py:219 | the objects are exactly the given ids that exist |
| MergeWizard.ExistingOne | develop/deltatech_merge_product/wizard/product_merge.py:219 | one id is kept exactly when its record exists |
| MergeWizard.ExistingAppend | develop/deltatech_merge_product/wizard/product_merge.py:219 | the records are filtered one by one, in place: filtering a concatenation filters each part |
| MergeWizard.ExistingAscending | develop/deltatech_merge_product/wizard/product_merge.py:219 | filtering ids in ascending order leaves them in ascending order |
| MergeWizard.Stored | develop/deltatech_merge_product/wizard/product_merge.py:53 | `object_ids` reads back every written id once, in ascending order |
| MergeWizard.AscendingUnique | develop/deltatech_merge_product/wizard/product_merge.py:53 | two ascending id lists with the same members are equal |
| MergeWizard.StoredIdempotent | develop/deltatech_merge_product/wizard/product_merge.py:53 | writing back what the field read gives the same objects |
| MergeWizard.StoredAscending | develop/deltatech_merge_product/wizard/product_merge.py:53 | ids written in ascending order without repeats read back as written |
| MergeWizard.WithoutAscending | develop/deltatech_merge_product/wizard/product_merge.py:237-238 | removing the destination from ascending objects keeps the sources ascending |
| MergeWizard.WizardSourcesAscending | develop/deltatech_merge_product/wizard/product_merge.py:237-238 | a merge run from the wizard takes its sources in id order, whatever order the records were selected in |
| MergeWizard.LastTruthyWins | develop/deltatech_merge_product/wizard/product_merge.py:201-206 | a non-summable column ends with its last truthy value, serialized, or keeps what it had when there is none |
| MergeWizard.SummableAdds | develop/deltatech_merge_product/wizard/product_merge.py:184-206 | a summable column of counts ends with their sum |
| MergeWizard.CollectColumn | develop/deltatech_merge_product/wizard/product_merge.py:197-207 | without summable fields every copied column holds its last truthy value, and columns with no truthy value are not written |
| MergeWizard.WriteValues | develop/deltatech_merge_product/wizard/product_merge.py:208-215 | only the destination changes: every value but id and parent_id is written, and the parent is set only when it differs from the destination and creates no cycle |
| MergeWizard.DefaultGet | develop/deltatech_merge_product/wizard/product_merge.py:57-65 | launched on records of the model, the wizard opens on them with the oldest as destination, the objects reading back once each in id order; None exactly when one of them is missing; otherwise on its options |
| MergeWizard.Earliest | develop/deltatech_merge_product/wizard/product_merge.py:28 | the current line is the one with the least `min_id`, the first among equals |
| MergeWizard.NextScreen | develop/deltatech_merge_product/wizard/product_merge.py:266-287 | with lines left it shows the first line's group, once each in id order, with its oldest record as destination; with none it finishes and the objects stay as they were |
| MergeWizard.ActionSkip | develop/deltatech_merge_product/wizard/product_merge.py:261-264 | the shown line is removed before moving on, so the lines strictly shrink |
| MergeWizard.ActionMerge | develop/deltatech_merge_product/wizard/product_merge.py:289-303 | with no objects left in the store it finishes; otherwise it merges the objects that still exist; a refused merge stops the wizard with that error, and a successful one removes the line and moves on |

## Left out

- `formatLang`, locale formatting and the `no_format`-off paths are not
  modelled. `format_number` takes the formatter as a parameter, and only its
  `no_format` and zero cases are stated.
- The '%.2f' rounding in `amount_to_text` and all floating point are not
  modelled. Amounts are integers, and `float()` is modelled for an optional
  sign and digits only.
- Dates are not modelled: `datetime.now`, `strftime`, `format_date` and the
  file-name timestamp. Create dates are integers, and the order date is a
  parameter.
- `get_infor_customer`, the report wizards, `export_to_xlsx`, the PDF and
  XLSX writers and the UI actions are I/O; they are not modelled.
- The report-line generator (`_get_lines`, `_get_options`) is not modelled.
  Its output is the input list of lines.
- The reader of a column's text and the journal-item lookup of the debt
  notice are parameters. The reports use `_get_number_split`, with its ",00"
  deletion limited to a decimal tail (NumberSplit.GetNumberSplitFixed), for
  the reader (ReportLines.Amount) and the store of journal items for the lookup
  (DebtNotice.ItemOf).
- `has_group` is the `approver` parameter. Its group is defined outside the
  modelled add-ons.
- `currency._convert` and `partner.credit` are parameters.
- The merge wizard's SQL work is not modelled: `_get_fk_on`,
  `_update_foreign_keys` and `_update_reference_fields` run raw UPDATE and
  DELETE statements on other tables. Logging is not modelled either.
- The cycle check of the parent write in `_update_values` runs on the store
  before any foreign key is rewired.
- MergeWizard.Nested: the ancestor search follows `parent_id` at most as many
  steps as the store has records. This is enough for any acyclic store.
- MergeWizard.Merge: the maximum arrives as an already-parsed integer. A
  configuration value that `int()` rejects is not modelled.
- MergeWizard.Stored: the merged model is taken to be ordered by id, the
  default `_order` of `merge.dummy`. A model that inherits the wizard with
  another `_order` reads `object_ids` back in that order instead.
- MergeWizard.NextScreen: `aggr_ids` arrives as an already-parsed list of ids
  rather than a `literal_eval` text.
- MergeWizard.MergeEffect: the column-by-column outcome is stated only when
  no field is summable. This is the source's own case, because
  `_get_summable_fields` returns an empty list.
- MergeWizard.SummableAdds: the sum is stated for positive integer counts
  only. Adding texts, or mixing kinds of values, is modelled but not stated.
- TotalsBelow.AddTotalsBelowCustom: the customised branch never terminates
  while a section is open, and it is modelled as None there.
- The custom flag's `selected_domains`, `_init_options_partner` and other
  ORM searches are not modelled.

## Findings

| source | as written | input that shows it | evidently intended | confidence | as-written member | corrected member |
|---|---|---|---|---|---|---|
| develop/biz_detail_of_receivable_report/models/common.py:9-11 | `.replace(",00", "")` deletes ",00" anywhere in the text, so a comma thousands group loses two zeros | "1,000 ₫" reads as 10 | delete ",00" only as a decimal tail, so "1,000 ₫" reads as 1000 | not executed | NumberSplit.AsWrittenThousands | NumberSplit.FixedThousands |

Two further disagreements are stated as lemmas rather than corrected:
- CompanyAddress.EmptyStateName: the report model and the printed reports
  build different addresses for a state with an empty name.
- TotalsBelow.LastOpensHangs: the customised totals loop does not terminate
  while a section is open.

Where the model uses the corrected reading:
- ReportLines.Amount reads with NumberSplit.GetNumberSplitFixed, the
  corrected `_get_number_split`.
- The reports' rules hold for any reader, because the reader is a
  parameter.
