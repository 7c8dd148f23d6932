/** The toast notification of `window.showNotification` (main.js): a message,
    a type that defaults to "info", a class name derived from the type and a
    background colour chosen by the type. The slide-in/slide-out timers and the
    removal after three seconds are not modelled. */
module Notify {
  import opened Wrappers

  /** The three CSS colour variables a toast can be painted with. */
  datatype Colour = SuccessColour | ErrorColour | PrimaryColour

  datatype Notification = Notification(message: string, kind: string, className: string, background: Colour)

  const DefaultKind := "info"
  const ClassPrefix := "notification notification-"

  /** The colour chosen for a toast of the given type. */
  function KindColour(kind: string): Colour {
    if kind == "success" then SuccessColour
    else if kind == "error" then ErrorColour
    else PrimaryColour
  }

  /** `showNotification(message, type = 'info')`; `kind` is `None` when the
      caller omits the type. */
  function ShowNotification(message: string, kind: Option<string>): (n: Notification)
    ensures n.message == message
    ensures kind.None? ==> n.kind == "info"
    ensures kind.Some? ==> n.kind == kind.value
    ensures n.className == ClassPrefix + n.kind
    ensures n.background == SuccessColour <==> n.kind == "success"
    ensures n.background == ErrorColour <==> n.kind == "error"
    ensures n.background == PrimaryColour <==> n.kind != "success" && n.kind != "error"
  {
    var k := kind.GetOr(DefaultKind);
    Notification(message, k, ClassPrefix + k, KindColour(k))
  }

  /** The class name alone determines the type and hence the colour: two
      toasts with the same class name are painted alike, and the type can be
      read back from the class name. */
  lemma ClassNameDeterminesColour(a: Notification, b: Notification, m1: string, m2: string, k1: Option<string>, k2: Option<string>)
    requires a == ShowNotification(m1, k1) && b == ShowNotification(m2, k2)
    requires a.className == b.className
    ensures a.kind == b.kind && a.background == b.background
    ensures a.className[|ClassPrefix|..] == a.kind
  {
    assert a.kind == a.className[|ClassPrefix|..];
    assert b.kind == b.className[|ClassPrefix|..];
  }
}
