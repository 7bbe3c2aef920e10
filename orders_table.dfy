/** How `OrdersTable` presents an order: its derived status, the badge and
    label of that status, and the record-delivery action. */
module OrdersTable {
  import opened Wrappers

  /** The fields of an order the table derives anything from; the delivery
      date is kept as the text the service sends. */
  datatype Order = Order(id: string, deliveryDate: Option<string>, remainingGLP: Option<real>)

  const Delivered := "entregado"
  const EnRoute := "en-ruta"
  const Pending := "pendiente"

  /** JavaScript truthiness of a delivery date: present and not empty. */
  predicate HasDeliveryDate(o: Order) {
    o.deliveryDate.Some? && o.deliveryDate.value != ""
  }

  /** `getOrderStatus` (lines 21-25): delivered whenever there is a delivery
      date; otherwise en route exactly when nothing remains (`=== 0`);
      pending in every other case, an unknown remainder included. */
  function OrderStatus(o: Order): (s: string)
    ensures s == Delivered <==> HasDeliveryDate(o)
    ensures s == EnRoute <==> !HasDeliveryDate(o) && o.remainingGLP == Some(0.0)
    ensures s == Pending <==> !HasDeliveryDate(o) && o.remainingGLP != Some(0.0)
  {
    if HasDeliveryDate(o) then Delivered
    else if o.remainingGLP == Some(0.0) then EnRoute
    else Pending
  }

  /** The status depends on the delivery date and the remaining GLP alone. */
  lemma StatusDependsOnDeliveryAndRemainder(o: Order, o': Order)
    requires o.deliveryDate == o'.deliveryDate && o.remainingGLP == o'.remainingGLP
    ensures OrderStatus(o) == OrderStatus(o')
  {
  }

  datatype BadgeVariant = Default | Secondary | Outline

  /** `getStatusBadgeVariant` (lines 27-36), total over all strings. */
  function StatusBadge(status: string): (v: BadgeVariant)
    ensures v == Default <==> status == Delivered
    ensures v == Secondary <==> status == EnRoute
  {
    match status
    case "entregado" => Default
    case "en-ruta" => Secondary
    case _ => Outline
  }

  /** The status label of the badge (line 89). */
  function StatusLabel(status: string): (caption: string)
    ensures caption == "Entregado" <==> status == Delivered
    ensures caption == "En Ruta" <==> status == EnRoute
  {
    if status == Delivered then "Entregado"
    else if status == EnRoute then "En Ruta"
    else "Pendiente"
  }

  /** Badge and label tell the three statuses of an order apart, and agree
      with each other on every string. */
  lemma BadgeAndLabelAgree(o: Order, o': Order, status: string)
    ensures StatusBadge(OrderStatus(o)) == StatusBadge(OrderStatus(o')) <==> OrderStatus(o) == OrderStatus(o')
    ensures StatusLabel(OrderStatus(o)) == StatusLabel(OrderStatus(o')) <==> OrderStatus(o) == OrderStatus(o')
    ensures StatusBadge(status) == Outline <==> StatusLabel(status) == "Pendiente"
  {
  }

  /** The record-delivery action is disabled exactly for delivered orders
      (line 113). */
  predicate DeliveryActionEnabled(o: Order) {
    OrderStatus(o) != Delivered
  }

  /** The amount the action records (line 112): the remaining GLP, or 0
      when it is absent. */
  function DeliveryAmount(o: Order): (amount: real)
    ensures o.remainingGLP.Some? ==> amount == o.remainingGLP.value
    ensures o.remainingGLP.None? ==> amount == 0.0
  {
    o.remainingGLP.GetOr(0.0)
  }

  /** The action is offered exactly for orders without a delivery date; on
      an order en route it records 0, and on a pending order it records the
      remainder, which is 0 only when it is unknown. */
  lemma DeliveryActionMeaning(o: Order)
    ensures DeliveryActionEnabled(o) <==> !HasDeliveryDate(o)
    ensures OrderStatus(o) == EnRoute ==> DeliveryAmount(o) == 0.0
    ensures OrderStatus(o) == Pending ==> (DeliveryAmount(o) == 0.0 <==> o.remainingGLP.None?)
  {
  }
}
