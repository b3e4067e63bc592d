/** Label get-or-create, `createLabel` (index.js), over an abstract label
    store: the list the provider returns from `labels.list`, in order.  A
    label created here is appended to that list. */
module Labels {
  import opened Wrappers

  datatype Label = Label(id: string, name: string, labelListVisibility: string, messageListVisibility: string)

  /** The outcome of one call: the label returned and the store afterwards. */
  datatype Resolved = Resolved(found: Label, store: seq<Label>)

  /** Position `i` holds the first label called exactly `name`. */
  predicate IsFirstNamed(labels: seq<Label>, name: string, i: int) {
    0 <= i < |labels| && labels[i].name == name && forall j :: 0 <= j < i ==> labels[j].name != name
  }

  predicate NoneNamed(labels: seq<Label>, name: string) {
    forall j :: 0 <= j < |labels| ==> labels[j].name != name
  }

  /** `labels.find(label => label.name === name)`, as a position. */
  function FindByName(labels: seq<Label>, name: string): (r: Option<nat>)
    ensures r.Some? ==> IsFirstNamed(labels, name, r.value)
    ensures r.None? <==> NoneNamed(labels, name)
    decreases |labels|
  {
    if |labels| == 0 then None
    else if labels[0].name == name then Some(0)
    else
      match FindByName(labels[1..], name)
      case None => None
      case Some(i) => Some(i + 1)
  }

  /** The label `labels.create` makes: visible in the label list and the message list. */
  function NewLabel(id: string, name: string): Label {
    Label(id, name, "labelShow", "show")
  }

  /** `createLabel`: the first label of that name if there is one, and the
      store untouched; otherwise one new label, appended, with the id the
      provider assigns (`freshId`). */
  function CreateLabel(labels: seq<Label>, name: string, freshId: string): (r: Resolved)
    ensures r.found.name == name
    ensures forall i | 0 <= i < |labels| && IsFirstNamed(labels, name, i) :: r.found == labels[i] && r.store == labels
    ensures NoneNamed(labels, name) ==> r.store == labels + [r.found] && r.found == Label(freshId, name, "labelShow", "show")
  {
    match FindByName(labels, name)
    case Some(i) => Resolved(labels[i], labels)
    case None => var l := NewLabel(freshId, name); Resolved(l, labels + [l])
  }

  /** A second call with the same name finds what the first returned or made,
      whatever id the provider would have assigned, and creates nothing. */
  lemma CreateLabelIdempotent(labels: seq<Label>, name: string, freshId: string, otherId: string)
    ensures var r := CreateLabel(labels, name, freshId);
      CreateLabel(r.store, name, otherId) == r
  {
    var r := CreateLabel(labels, name, freshId);
    match FindByName(labels, name)
    case Some(i) =>
    case None =>
      assert IsFirstNamed(r.store, name, |labels|);
  }

  /** Label names are unique in the store. */
  predicate NamesUnique(labels: seq<Label>) {
    forall i, j :: 0 <= i < j < |labels| ==> labels[i].name != labels[j].name
  }

  /** `createLabel` never creates a second label with a name already present. */
  lemma CreateLabelKeepsNamesUnique(labels: seq<Label>, name: string, freshId: string)
    requires NamesUnique(labels)
    ensures NamesUnique(CreateLabel(labels, name, freshId).store)
  {
  }

  /** The store only grows, and by at most one label. */
  lemma CreateLabelGrowsByAtMostOne(labels: seq<Label>, name: string, freshId: string)
    ensures var s := CreateLabel(labels, name, freshId).store;
      labels <= s && |s| <= |labels| + 1
  {
  }
}
