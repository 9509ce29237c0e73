/** The shared types of the service layer: tree nodes, list state, keys and the action enums. */
module ServiceTypes {
  import opened Wrappers
  import opened JsValues

  /** A row key: a string or a number. */
  datatype KeyType = NumberKey(n: int) | StringKey(s: string) {
    /** The key as the JavaScript value it is. */
    function ToValue(): (v: Value)
      ensures v.Num? || v.Str?
    {
      match this
      case NumberKey(n) => Num(n)
      case StringKey(s) => Str(s)
    }
  }

  /**
   * A node of the tree widgets. `key` and `title` are copied from the model's `id` and
   * `name` and may be any value (`null` for the default root); `disabled` is whatever
   * the model carried until a disabling pass sets it.
   */
  datatype TreeNode = TreeNode(title: Value, key: Value, item: Rec, children: seq<TreeNode>, disabled: Value)

  /** `new TreeNode(model)` for a model object, `new TreeNode()` for `None`. */
  function NewTreeNode(model: Option<Rec>): (node: TreeNode)
    ensures node.children == []
    ensures model.Some? ==>
      node.key == Get(model.value, "id") && node.title == Get(model.value, "name") &&
      node.disabled == Get(model.value, "disabled") && node.item == model.value
    ensures model.None? ==>
      node.key == Null && node.title == Str("") && node.item == map[] && node.disabled == Bool(false)
  {
    match model
    case Some(m) => TreeNode(Get(m, "name"), Get(m, "id"), m, [], Get(m, "disabled"))
    case None => TreeNode(Str(""), Null, map[], [], Bool(false))
  }

  /** A page of records and the total count (`None` after a failed load, where the code stores `null`). */
  datatype ListState<T> = ListState(list: seq<T>, count: Option<int>)

  /** The actions of a filter reducer. */
  datatype FilterActionEnum = SET | UPDATE | UPDATE_PAGINATION

  /** The statuses a form field can display, with their string values. */
  datatype ValidateStatus = Success | Warning | Error | Validating {
    function Text(): string {
      match this
      case Success => "success"
      case Warning => "warning"
      case Error => "error"
      case Validating => "validating"
    }
  }

  /** The actions of the model and general reducers (the general reducer's are the strings `"SET"` ...). */
  datatype GeneralActionEnum = SetAction | UpdateAction | SetErrors | UpdateErrors {
    function Text(): string {
      match this
      case SetAction => "SET"
      case UpdateAction => "UPDATE"
      case SetErrors => "SET_ERRORS"
      case UpdateErrors => "UPDATE_ERRORS"
    }
  }

  /** An action of the model and general reducers: its type string, and the payload and errors it may carry. */
  datatype GeneralAction = GeneralAction(kind: string, payload: Value, errors: Value)

  /** The only list action type. */
  const ListActionSet: string := "SET"
}
