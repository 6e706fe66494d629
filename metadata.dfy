/**
 * Where `process_video` finds the class labels in the model's YAML metadata: a top-level
 * `names` first, then `names` under `dataset_config_content`.
 */
module Metadata {
  import opened Common
  import opened Detection

  /**
   * The parts of a loaded YAML document the lookup can meet: a mapping with string keys,
   * a list of labels, a mapping from class index to label, or any other scalar.
   */
  datatype Node =
    | Mapping(entries: map<string, Node>)
    | LabelList(items: seq<string>)
    | LabelMap(labels: map<nat, string>)
    | Scalar(text: string)

  /**
   * Why no labels come out: the document has no `names` where the lookup looks
   * ("File YAML tidak mengandung daftar 'names'"), or the `names` it finds cannot be
   * indexed by class number.
   */
  datatype MetaError = MissingNames | NotLabels

  /** `class_names[i]` for the value found under `names`: a list indexes by position. */
  function AsClassNames(n: Node): (r: Result<ClassNames, MetaError>)
    ensures n.LabelList? ==> && r.Success?
                             && (forall i: nat :: i in r.value <==> i < |n.items|)
                             && (forall i :: 0 <= i < |n.items| ==> i in r.value && r.value[i] == n.items[i])
    ensures n.LabelMap? ==> r == Success(n.labels)
    ensures !n.LabelList? && !n.LabelMap? ==> r == Failure(NotLabels)
  {
    match n
    case LabelList(items) => Success(map i | 0 <= i < |items| :: items[i])
    case LabelMap(labels) => Success(labels)
    case _ => Failure(NotLabels)
  }

  /** The two places the lookup tries, in order. */
  predicate HasTopNames(data: Node)
  {
    data.Mapping? && "names" in data.entries
  }

  predicate HasNestedNames(data: Node)
  {
    && data.Mapping?
    && "dataset_config_content" in data.entries
    && data.entries["dataset_config_content"].Mapping?
    && "names" in data.entries["dataset_config_content"].entries
  }

  /** The `names` lookup of `process_video`. */
  function LookupNames(data: Node): (r: Result<ClassNames, MetaError>)
    ensures r == Failure(MissingNames) <==> !HasTopNames(data) && !HasNestedNames(data)
    ensures HasTopNames(data) ==> r == AsClassNames(data.entries["names"])
    ensures !HasTopNames(data) && HasNestedNames(data) ==>
              r == AsClassNames(data.entries["dataset_config_content"].entries["names"])
  {
    if HasTopNames(data) then AsClassNames(data.entries["names"])
    else if HasNestedNames(data) then AsClassNames(data.entries["dataset_config_content"].entries["names"])
    else Failure(MissingNames)
  }

  /**
   * The top-level `names` wins: whatever sits under `dataset_config_content` does not
   * change the labels once the top level has them.
   */
  lemma {:induction false} TopLevelWins(entries: map<string, Node>, nested: Node)
    requires "names" in entries
    ensures LookupNames(Mapping(entries["dataset_config_content" := nested])) == LookupNames(Mapping(entries))
  {
    assert HasTopNames(Mapping(entries["dataset_config_content" := nested]));
  }

  /** A label list of n entries gives exactly the class indices 0 to n - 1. */
  lemma ListedLabels(items: seq<string>, i: nat)
    ensures var r := LookupNames(Mapping(map["names" := LabelList(items)]));
            r.Success? && (i in r.value <==> i < |items|) && (i < |items| ==> r.value[i] == items[i])
  {
  }
}
