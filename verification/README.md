# Forum access decisions of thunder-community, in Dafny

This project models three pieces of decision logic of the thunder-community
Drupal modules and proves properties of them.

- **Forum reply access control handler.** Every check starts from Neutral. It
  combines, in registration order, the answers of a list of pluggable access
  control handlers with `orIf`. The item-level check skips handlers whose
  `applies` is false. The create and field checks consult every handler.
  Module `AccessResult` holds the tri-state decision, `orIf` and the fold.
  Module `ForumReplyAccess` holds the handlers and the three checks. Module
  `ForumReplyAccessProperties` holds the lemmas about them.
- **Forum access helper.** Module `ForumAccessHelper` covers the node form:
  the shadow-copy and reply-settings elements are visible only to forum
  moderators. It also covers the term form: the first parent item and the
  weight are visible only to forum administrators. Module `ForumTermOverview`
  covers the forum overview table. An "Access" header is added and the
  "Operations" header is moved last. Each row that carries a term gets an
  "Inherited"/"Custom" access cell and a "configure access" link. Every row's
  `operations` cell is moved last.
- **Forum reply field item list.** Module `ForumReplyFieldItemList` covers the
  field's item list. Reading delta 0 of an empty list lazily appends the
  field's default item. `offsetExists(0)` is forced true. The two overrides
  test delta 0 differently: `get` with PHP's loose `==`, `offsetExists` with
  the strict `===`. For integer deltas they agree. For NULL, FALSE and strings
  that equal 0 such as "0", they disagree on an empty list: `get` appends and
  returns the default item, but `offsetExists` answers false. The model proves
  exactly when this happens, with the delta as a PHP scalar.

Supporting modules: `Wrappers` (Option), `Taxonomy` (term ids) and `PhpArray`. `PhpArray` models an
ordered PHP array: unique keys, insertion order, in-place overwrite,
append-on-new-key and `unset`.

The following are inputs to the model, not computed by it:

- Drupal's `AccessResult::orIf` is not part of the repository. It is assumed
  to follow Drupal core: forbidden if either operand is forbidden, else allowed
  if either is allowed, else neutral. `AccessResult.OrIf` states this as the
  join of the order Neutral < Allow < Deny.
- The handlers are a sequence of records of four functions (`applies`,
  `checkAccess`, `checkCreateAccess`, `checkFieldAccess`). The model receives
  this sequence as a parameter. The plugin manager that discovers handlers is
  not modelled.
- The following are uninterpreted function parameters:
  - whether the current user is a forum moderator of a term (`userIsForumModerator`)
  - whether the current user is a forum administrator (`userIsForumAdmin`)
  - a term's access record (`getForumAccessRecord`)
  - the translation service `t()`
- The entity checks are boolean inputs: forum node type, forum term form, and
  `isNew`. The node's forum term is an input too.
- The field's default item is a parameter of `get`.
- How PHP compares a string with 0 depends on the PHP version. It is a
  parameter of the scalar-delta model.

## Model

| member | source | states |
|---|---|---|
| AccessResult.OrIf | thunder_forum_reply/src/ForumReplyAccessControlHandler.php:56 | the combined decision is the stronger of the two in the order Neutral < Allow < Deny: Deny if either is Deny, else Allow if either is Allow, else Neutral |
| AccessResult.OrIfNeutralIdentity | thunder_forum_reply/src/ForumReplyAccessControlHandler.php:49 | Neutral, the start value of every check, is an identity of `orIf` on both sides |
| AccessResult.OrIfDenyDominates | thunder_forum_reply/src/ForumReplyAccessControlHandler.php:56 | a Deny on either side cannot be overridden by the other operand |
| AccessResult.OrIfCommutative | thunder_forum_reply/src/ForumReplyAccessControlHandler.php:56 | `orIf` does not depend on operand order |
| AccessResult.OrIfAssociative | thunder_forum_reply/src/ForumReplyAccessControlHandler.php:52-57 | `orIf` is associative, so the left fold's grouping does not matter |
| AccessResult.FoldOrIf | thunder_forum_reply/src/ForumReplyAccessControlHandler.php:49-59 | the fold of the handler loop is Deny iff the start value or some result is Deny; Allow iff nothing is Deny and the start or some result is Allow; Neutral iff the start and every result are Neutral |
| AccessResult.FoldOrIfAppend | thunder_forum_reply/src/ForumReplyAccessControlHandler.php:52-57 | folding over two consecutive runs of handlers equals folding the second run from the first run's result |
| AccessResult.FoldOrIfStart | thunder_forum_reply/src/ForumReplyAccessControlHandler.php:49-57 | a fold from any start value equals `orIf` of that value with the fold from Neutral |
| AccessResult.FoldOrIfPermutation | thunder_forum_reply/src/ForumReplyAccessControlHandler.php:52-57 | any permutation of the results gives the same fold |
| ForumReplyAccess.ApplicableResults | thunder_forum_reply/src/ForumReplyAccessControlHandler.php:52-56 | the answers that reach `orIf` are exactly those of handlers whose `applies` is true |
| ForumReplyAccess.CheckAccess | thunder_forum_reply/src/ForumReplyAccessControlHandler.php:48-60 | item-level result is Deny iff some applicable handler denies; Allow iff none denies and some allows; Neutral iff every applicable handler is Neutral (so also when none applies) |
| ForumReplyAccess.CheckCreateAccess | thunder_forum_reply/src/ForumReplyAccessControlHandler.php:65-74 | create result is Deny iff some handler denies, Allow iff none denies and some allows, Neutral iff all are Neutral; `applies` is not consulted |
| ForumReplyAccess.CheckFieldAccess | thunder_forum_reply/src/ForumReplyAccessControlHandler.php:79-88 | field result is Deny iff some handler denies, Allow iff none denies and some allows, Neutral iff all are Neutral; `applies` is not consulted |
| ForumReplyAccessProperties.CheckAccessNoneApplies | thunder_forum_reply/src/ForumReplyAccessControlHandler.php:49-59 | with no handler, or no handler that applies, the item-level result is Neutral |
| ForumReplyAccessProperties.SkippedHandlerIsIrrelevant | thunder_forum_reply/src/ForumReplyAccessControlHandler.php:53-55 | removing a handler whose `applies` is false leaves the applicable answers and the item-level result unchanged |
| ForumReplyAccessProperties.CreateAndFieldIgnoreApplies | thunder_forum_reply/src/ForumReplyAccessControlHandler.php:65-87 | a handler that does not apply at item level has no effect there, yet its create and field answers are combined into those checks like any other |
| ForumReplyAccessProperties.ReorderCheckAccess | thunder_forum_reply/src/ForumReplyAccessControlHandler.php:52-57 | visiting the handlers in any order that covers them all (repeats allowed) gives the same item-level result |
| ForumReplyAccessProperties.ReorderCheckCreateAccess | thunder_forum_reply/src/ForumReplyAccessControlHandler.php:69-71 | the create result does not depend on handler order |
| ForumReplyAccessProperties.ReorderCheckFieldAccess | thunder_forum_reply/src/ForumReplyAccessControlHandler.php:83-85 | the field result does not depend on handler order |
| ForumReplyFieldItemList.Get | thunder_forum_reply/src/ForumReplyFieldItemList.php:15-26 | reading delta 0 of an empty list appends the default and returns it (length becomes 1); every other read returns the stored item or NULL and leaves the list unchanged; the old items always stay a prefix |
| ForumReplyFieldItemList.OffsetExists | thunder_forum_reply/src/ForumReplyFieldItemList.php:31-38 | for an integer delta: forced true for delta 0, even on an empty list; for any other delta, the inherited answer (the delta is stored) |
| ForumReplyFieldItemList.OffsetExistsAgreesWithGet | thunder_forum_reply/src/ForumReplyFieldItemList.php:31-38 | for integer deltas, `offsetExists` is true for delta 0 even on an empty list and otherwise iff the delta is stored; in both cases it is true exactly when `get` returns an item |
| ForumReplyFieldItemList.OffsetExistsAt | thunder_forum_reply/src/ForumReplyFieldItemList.php:31-38 | for a scalar delta: true for the integer 0 only by the strict test; otherwise true iff PHP converts the delta to an integer key that is stored; on an empty list only the integer 0 exists |
| ForumReplyFieldItemList.ScalarDeltaIntegers | thunder_forum_reply/src/ForumReplyFieldItemList.php:21-37 | on integer deltas the loose and strict tests agree: the scalar model appends exactly when `Get` does, and answers `offsetExists` as `OffsetExists` does |
| ForumReplyFieldItemList.GetAndOffsetExistsDisagree | thunder_forum_reply/src/ForumReplyFieldItemList.php:21-37 | `get` appends and returns the default while `offsetExists` denies the offset iff the list is empty and the delta is NULL, FALSE or a string PHP compares equal to 0 |
| ForumReplyFieldItemList.ZeroStringDisagrees | thunder_forum_reply/src/ForumReplyFieldItemList.php:21-37 | the string "0" on an empty list is such a delta |
| ForumReplyFieldItemList.GetZeroIdempotent | thunder_forum_reply/src/ForumReplyFieldItemList.php:21-23 | after one read of delta 0, delta 0 is really stored, and a second read of delta 0 neither changes the list nor returns a different item |
| ForumReplyFieldItemList.GetAllAppendsAtMostOnce | thunder_forum_reply/src/ForumReplyFieldItemList.php:21-25 | after any sequence of reads the list is `[default]` if it was empty and delta 0 was read, and unchanged otherwise |
| ForumAccessHelper.AlterForumNodeForm | thunder_forum_access/src/Access/ForumAccessHelper.php:70-89 | on an existing forum node with a term, `shadow` and `forum_replies` (where present) are visible iff the user is a forum moderator of that term; no other element changes, and other forms are left alone |
| ForumAccessHelper.AlterForumNodeFormIdempotent | thunder_forum_access/src/Access/ForumAccessHelper.php:75-86 | a second node form alteration changes nothing |
| ForumAccessHelper.AlterForumTermForm | thunder_forum_access/src/Access/ForumAccessHelper.php:94-116 | on an existing forum term's form, `parent[0]` and `weight` (where present) are visible iff the user is a forum administrator; other parent items and other elements do not change; new terms and other forms are left alone |
| ForumAccessHelper.AlterForumTermFormIdempotent | thunder_forum_access/src/Access/ForumAccessHelper.php:96-113 | a second term form alteration changes nothing |
| ForumTermOverview.ScanHeaders | thunder_forum_access/src/Access/ForumAccessHelper.php:127-133 | the header loop keeps the non-"Operations" headers in order and remembers an "Operations" header iff one exists, namely the last one |
| ForumTermOverview.HeaderPass | thunder_forum_access/src/Access/ForumAccessHelper.php:124-137 | at most one "Operations" header remains, and only in last position; when "Access" does not render like "Operations", the headers are the original non-"Operations" ones in order, then "Access", then the last "Operations" header if any existed |
| ForumTermOverview.AccessLabel | thunder_forum_access/src/Access/ForumAccessHelper.php:151 | the label is "Inherited" iff members, moderators and permissions are all inherited, and "Custom" otherwise |
| ForumTermOverview.AddAccessLink | thunder_forum_access/src/Access/ForumAccessHelper.php:142-144 | the operations cell afterwards holds the "configure access" link for the term; its other links and markup are kept; an existing link is overwritten in place and a new one goes after the existing links; a NULL cell becomes an element with only that link |
| ForumTermOverview.MoveOperationsLast | thunder_forum_access/src/Access/ForumAccessHelper.php:156-158 | the `operations` cell becomes the last key, the other keys keep their order and values, and a missing `operations` cell becomes a NULL one |
| ForumTermOverview.MoveOperationsLastIdempotent | thunder_forum_access/src/Access/ForumAccessHelper.php:156-158 | moving the `operations` cell a second time changes nothing |
| ForumTermOverview.AddAccessCells | thunder_forum_access/src/Access/ForumAccessHelper.php:140-152 | a row with a term gets the "configure access" link in `operations` and an `access` cell from the term's record; new keys are appended, and no other cell changes |
| ForumTermOverview.AlterRow | thunder_forum_access/src/Access/ForumAccessHelper.php:139-159 | every row stays well formed and ends with `operations`; its other keys keep their relative order and values; only a row with a term gets an `access` cell labelled from that term's record and the "configure access" link added to its existing `operations` value; a row without a term keeps its `access` cell, and a missing `operations` cell becomes NULL |
| ForumTermOverview.AlteredKeysStable | thunder_forum_access/src/Access/ForumAccessHelper.php:139-159 | applying the row key order a second time changes nothing |
| ForumTermOverview.AddAccessLinkIdempotent | thunder_forum_access/src/Access/ForumAccessHelper.php:142-144 | writing the "configure access" link a second time changes nothing |
| ForumTermOverview.AlterRowIdempotent | thunder_forum_access/src/Access/ForumAccessHelper.php:139-159 | altering a row a second time changes nothing: its cells, their order and their values are the same |
| ForumTermOverview.AlterForumTermOverviewForm | thunder_forum_access/src/Access/ForumAccessHelper.php:121-161 | without a `terms` element nothing changes; otherwise the header pass runs and every row goes through the row alteration, keeping its key and position |

## Left out

- Handler discovery through the plugin manager: the handler list is a parameter.
- `AccessResult` cacheability metadata and reasons: only the tri-state decision is modelled.
- The implementations of `userIsForumModerator`, `userIsForumAdmin` and `getForumAccessRecord`: they are not part of this model. The category-inheritance walk and record storage behind them are left out for the same reason. All of these are uninterpreted parameters.
- Rendering: `t()` is a parameter. The "Inherited"/"Custom" markup and the link title are kept as their source strings. `Url::fromRoute` is reduced to a route name and term id. The redirect-destination query of the link is not modelled.
- ForumTermOverview.AddAccessLink: it writes the whole link record, where the source assigns the `title`, `url` and `query` keys one by one. The two differ only if a `thunder_forum_access` link with extra keys already existed.
- ForumTermOverview.HeaderPass: the exact shape of the result is stated only when the translation of "Access" differs from that of "Operations". In the other case only "at most one Operations header, and last" is stated.
- Forms are reduced to the elements the alterations touch: a widget's `#access` and its numbered children, the overview's header and rows. `Element::children` ordering is taken to be the rows' stored order, as the source does not ask for sorting.
- ForumReplyFieldItemList.Get: deltas are integers here. `GetAppendsDefault` models only the branch choice of `get` for other PHP scalars. Drupal's inherited `get` is not part of this model, so for a non-integer delta its result is not modelled, including the exception it raises for a non-numeric delta. Floats as deltas are not modelled. The field definition's default value is passed in as the item itself, so an empty default value array is not modelled.
- ForumReplyFieldItemList.OffsetExistsAt: the inherited `offsetExists` is taken to be `isset` on the stored items. PHP's integer key conversion is modelled without the platform integer range.
- `ForumReplyManager` (database queries, module checks, history timestamps) and the Views sort plugin `StatisticsLastUpdated` (an SQL `GREATEST` expression): these are I/O and query building, not decision logic.
