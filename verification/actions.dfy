/** The three combat actions and the string labels the Python code passes around. */
module Actions {

  datatype Action = Attack | Heal | Defend

  /** The two shapes of a label: one of the three names, or any other string, which the learning
      code tolerates silently. */
  datatype LabelForm = Named(action: Action) | Unrecognised(text: string)

  /** The strings the code recognises as actions. */
  predicate IsActionName(s: string)
  {
    s == "attack" || s == "heal" || s == "defend"
  }

  /** A label as the learning code receives it: an unrecognised one never holds an action name,
      so each string has exactly one label. */
  type Label = l: LabelForm | l.Unrecognised? ==> !IsActionName(l.text) witness Named(Attack)

  /** The string the Python code uses for an action. */
  function Name(a: Action): (s: string)
    ensures ParseLabel(s) == Named(a)
  {
    match a
    case Attack => "attack"
    case Heal => "heal"
    case Defend => "defend"
  }

  /** Classifies a string the way the code's `action == 'attack'` comparisons do. */
  function ParseLabel(s: string): (l: Label)
    ensures l.Named? <==> s == "attack" || s == "heal" || s == "defend"
    ensures l.Unrecognised? ==> l.text == s
  {
    if s == "attack" then Named(Attack)
    else if s == "heal" then Named(Heal)
    else if s == "defend" then Named(Defend)
    else Unrecognised(s)
  }
}
