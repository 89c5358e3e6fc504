/** The forum access helper's form alterations. Forms are reduced to the elements
    the alterations read or write. Whether the current user is a forum moderator or
    administrator, the forum access record of a term, the string translation
    service and the entity checks are inputs: their implementations are not part
    of this model. */
module ForumAccessHelper {
  import opened Wrappers
  import opened PhpArray
  import opened Taxonomy

  /** A form element, reduced to its '#access' property (None when unset, which
      Drupal renders as visible) and its numbered child elements. */
  datatype Widget = Widget(access: Option<bool>, deltas: map<int, Widget>)

  /** The top-level elements of a form, by name. */
  type Form = map<string, Widget>

  function WithAccess(w: Widget, visible: bool): Widget {
    w.(access := Some(visible))
  }

  const ShadowKey: string := "shadow"
  const RepliesKey: string := "forum_replies"
  const ParentKey: string := "parent"
  const WeightKey: string := "weight"

  /** What the node form alteration learns from the form's entity. */
  datatype NodeFormContext = NodeFormContext(
    isForumNode: bool,            // the forum manager's node type check
    isNew: bool,
    forumTerm: Option<TermId>)    // the forum term of the node, if its forum field is set

  /** The node form alteration acts on existing forum nodes that have a forum term. */
  predicate NodeFormGated(node: NodeFormContext) {
    node.isForumNode && !node.isNew && node.forumTerm.Some?
  }

  /** `alterForumNodeForm`: on an existing forum node with a term, the 'Leave shadow
      copy' and forum reply settings elements are shown exactly to forum moderators
      (administrators included) of that term; nothing else changes. */
  function AlterForumNodeForm<A>(form: Form, node: NodeFormContext, user: A, isForumModerator: (TermId, A) -> bool): (r: Form)
    ensures r.Keys == form.Keys
    ensures forall k | k in form && k != ShadowKey && k != RepliesKey :: r[k] == form[k]
    ensures NodeFormGated(node) ==> forall k | k in form && (k == ShadowKey || k == RepliesKey) ::
      r[k].access == Some(isForumModerator(node.forumTerm.value, user)) && r[k].deltas == form[k].deltas
    ensures !NodeFormGated(node) ==> r == form
  {
    if NodeFormGated(node) then
      var tid := node.forumTerm.value;
      var withShadow := if ShadowKey in form then form[ShadowKey := WithAccess(form[ShadowKey], isForumModerator(tid, user))] else form;
      if RepliesKey in withShadow then withShadow[RepliesKey := WithAccess(withShadow[RepliesKey], isForumModerator(tid, user))]
      else withShadow
    else form
  }

  /** `alterForumTermForm`: on the form of an existing forum term, the first
      'Parent' item and the 'Weight' element are shown exactly to forum
      administrators; a new term's form, or any other form, is left alone. */
  function AlterForumTermForm<A>(form: Form, isForumTermForm: bool, termIsNew: bool, user: A, isForumAdmin: A -> bool): (r: Form)
    ensures r.Keys == form.Keys
    ensures forall k | k in form && k != ParentKey && k != WeightKey :: r[k] == form[k]
    ensures isForumTermForm && !termIsNew ==>
      (WeightKey in form ==> r[WeightKey] == WithAccess(form[WeightKey], isForumAdmin(user))) &&
      (ParentKey in form ==>
        r[ParentKey].access == form[ParentKey].access &&
        r[ParentKey].deltas.Keys == form[ParentKey].deltas.Keys &&
        (forall d | d in form[ParentKey].deltas && d != 0 :: r[ParentKey].deltas[d] == form[ParentKey].deltas[d]) &&
        (0 in form[ParentKey].deltas ==> r[ParentKey].deltas[0] == WithAccess(form[ParentKey].deltas[0], isForumAdmin(user))))
    ensures !(isForumTermForm && !termIsNew) ==> r == form
  {
    if isForumTermForm && !termIsNew then
      var isAdmin := isForumAdmin(user);
      var withParent :=
        if ParentKey in form && 0 in form[ParentKey].deltas then
          var parent := form[ParentKey];
          form[ParentKey := parent.(deltas := parent.deltas[0 := WithAccess(parent.deltas[0], isAdmin)])]
        else form;
      if WeightKey in withParent then withParent[WeightKey := WithAccess(withParent[WeightKey], isAdmin)]
      else withParent
    else form
  }

  lemma AlterForumNodeFormIdempotent<A>(form: Form, node: NodeFormContext, user: A, isForumModerator: (TermId, A) -> bool)
    ensures AlterForumNodeForm(AlterForumNodeForm(form, node, user, isForumModerator), node, user, isForumModerator)
         == AlterForumNodeForm(form, node, user, isForumModerator)
  {}

  lemma AlterForumTermFormIdempotent<A>(form: Form, isForumTermForm: bool, termIsNew: bool, user: A, isForumAdmin: A -> bool)
    ensures AlterForumTermForm(AlterForumTermForm(form, isForumTermForm, termIsNew, user, isForumAdmin), isForumTermForm, termIsNew, user, isForumAdmin)
         == AlterForumTermForm(form, isForumTermForm, termIsNew, user, isForumAdmin)
  {
    var once := AlterForumTermForm(form, isForumTermForm, termIsNew, user, isForumAdmin);
    var twice := AlterForumTermForm(once, isForumTermForm, termIsNew, user, isForumAdmin);
    if isForumTermForm && !termIsNew && ParentKey in form {
      assert twice[ParentKey].deltas == once[ParentKey].deltas;
    }
    assert forall k | k in once :: twice[k] == once[k];
  }
}
