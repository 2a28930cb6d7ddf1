/**
 * The part of the console page that holds rules, as values: one card per
 * service, in the order they were appended, each with the list of rule items
 * appended to it. An item is identified by the element id `rule-<id>` and
 * shows its rule's display text. A jQuery `$('#x')` finds the first element
 * with that id in document order, which is what `AppendItem` and `RemoveNode`
 * do.
 */
module Dom {
  import opened Wrappers

  /** A rendered rule: element id `rule-<id>`, markup `Markup.RuleHtml(id, text)`. */
  datatype Item = Item(id: int, text: string)

  /** A service's card, holding the list `<service>-rules-list`. */
  datatype Card = Card(service: string, items: seq<Item>)

  /** All items, in document order. */
  function Nodes(cards: seq<Card>): seq<Item> {
    if cards == [] then [] else cards[0].items + Nodes(cards[1..])
  }

  function Services(cards: seq<Card>): seq<string> {
    if cards == [] then [] else [cards[0].service] + Services(cards[1..])
  }

  /** No card belongs to the service. */
  predicate NoCard(cards: seq<Card>, service: string) {
    forall j :: 0 <= j < |cards| ==> cards[j].service != service
  }

  /** The position of the first card of a service, if there is one. */
  function FirstCard(cards: seq<Card>, service: string): (r: Option<nat>)
    ensures r.Some? ==> r.value < |cards| && cards[r.value].service == service
    ensures r.Some? ==> forall j :: 0 <= j < r.value ==> cards[j].service != service
    ensures r.None? ==> NoCard(cards, service)
  {
    if cards == [] then None
    else if cards[0].service == service then Some(0)
    else match FirstCard(cards[1..], service)
      case None => None
      case Some(k) => Some(k + 1)
  }

  /** Appending to `#<service>-rules-list`: the first card of that service gets the item. */
  function AppendItem(cards: seq<Card>, service: string, item: Item): (r: seq<Card>)
    ensures Services(r) == Services(cards)
  {
    if cards == [] then []
    else if cards[0].service == service then [Card(service, cards[0].items + [item])] + cards[1..]
    else [cards[0]] + AppendItem(cards[1..], service, item)
  }

  /**
   * An item is appended to the first card of its service and nowhere else;
   * with no such card, nothing changes.
   */
  lemma {:induction false} AppendItemSpec(cards: seq<Card>, service: string, item: Item)
    ensures match FirstCard(cards, service)
      case None => AppendItem(cards, service, item) == cards
      case Some(k) => AppendItem(cards, service, item) == cards[k := Card(service, cards[k].items + [item])]
  {
    if cards != [] && cards[0].service != service {
      AppendItemSpec(cards[1..], service, item);
      assert [cards[0]] + cards[1..] == cards;
    }
  }

  /** Appending to the newest card, whose service no earlier card has, appends to the document. */
  lemma {:induction false} AppendItemToLast(cards: seq<Card>, item: Item)
    requires cards != []
    requires NoCard(cards[..|cards| - 1], cards[|cards| - 1].service)
    ensures Nodes(AppendItem(cards, cards[|cards| - 1].service, item)) == Nodes(cards) + [item]
  {
    var s := cards[|cards| - 1].service;
    if |cards| == 1 {
      assert Nodes(cards) == cards[0].items + Nodes([]);
      assert AppendItem(cards, s, item) == [Card(s, cards[0].items + [item])];
      assert Nodes(AppendItem(cards, s, item)) == cards[0].items + [item] + Nodes([]);
    } else {
      assert cards[0] == cards[..|cards| - 1][0];
      assert cards[1..][..|cards[1..]| - 1] == cards[..|cards| - 1][1..];
      AppendItemToLast(cards[1..], item);
      assert cards[1..][|cards[1..]| - 1] == cards[|cards| - 1];
      assert AppendItem(cards, s, item) == [cards[0]] + AppendItem(cards[1..], s, item);
      assert ([cards[0]] + AppendItem(cards[1..], s, item))[1..] == AppendItem(cards[1..], s, item);
    }
  }

  /** The items of several appends to one service, in order. */
  function AppendAll(cards: seq<Card>, service: string, items: seq<Item>): seq<Card>
    decreases |items|
  {
    if items == [] then cards
    else AppendAll(AppendItem(cards, service, items[0]), service, items[1..])
  }

  /**
   * `writeServicesAndRules` after the rules are fetched: for each service in
   * turn, a new card, then each of its items appended to that service's list.
   */
  function RenderServices(cards: seq<Card>, services: seq<string>, lists: seq<seq<Item>>): seq<Card>
    requires |services| == |lists|
    decreases |services|
  {
    if services == [] then cards
    else RenderServices(AppendAll(cards + [Card(services[0], [])], services[0], lists[0]),
                        services[1..], lists[1..])
  }

  function Flatten(lists: seq<seq<Item>>): seq<Item> {
    if lists == [] then [] else lists[0] + Flatten(lists[1..])
  }

  lemma {:induction false} NodesAppend(cards: seq<Card>, more: seq<Card>)
    ensures Nodes(cards + more) == Nodes(cards) + Nodes(more)
    ensures Services(cards + more) == Services(cards) + Services(more)
  {
    if cards == [] {
      assert cards + more == more;
    } else {
      var both := cards + more;
      assert both[0] == cards[0] && both[1..] == cards[1..] + more;
      NodesAppend(cards[1..], more);
      assert Nodes(both) == cards[0].items + (Nodes(cards[1..]) + Nodes(more));
      Associative(cards[0].items, Nodes(cards[1..]), Nodes(more));
      assert Services(both) == [cards[0].service] + (Services(cards[1..]) + Services(more));
      Associative([cards[0].service], Services(cards[1..]), Services(more));
    }
  }

  lemma {:induction false} ServicesIndex(cards: seq<Card>)
    ensures |Services(cards)| == |cards|
    ensures forall j :: 0 <= j < |cards| ==> Services(cards)[j] == cards[j].service
  {
    if cards != [] {
      ServicesIndex(cards[1..]);
    }
  }

  /** Appending a service's items to its card, the newest and only one of that service. */
  lemma {:induction false} AppendAllToLast(cards: seq<Card>, items: seq<Item>)
    requires cards != []
    requires NoCard(cards[..|cards| - 1], cards[|cards| - 1].service)
    ensures var r := AppendAll(cards, cards[|cards| - 1].service, items);
      && Nodes(r) == Nodes(cards) + items && Services(r) == Services(cards)
      && |r| == |cards| && r[|r| - 1].service == cards[|cards| - 1].service
  {
    var s := cards[|cards| - 1].service;
    var r := AppendAll(cards, s, items);
    assert Services(r) == Services(cards) && |r| == |cards| && r[|r| - 1].service == s by {
      AppendAllServices(cards, s, items);
      SameServices(cards, r);
    }
    AppendAllNodes(cards, items);
  }

  /** Appending items never adds or removes a card. */
  lemma {:induction false} AppendAllServices(cards: seq<Card>, s: string, items: seq<Item>)
    ensures Services(AppendAll(cards, s, items)) == Services(cards)
    decreases |items|
  {
    if items != [] {
      AppendAllServices(AppendItem(cards, s, items[0]), s, items[1..]);
    }
  }

  /** The items appended to the newest card come last in the document, in order. */
  lemma {:induction false} AppendAllNodes(cards: seq<Card>, items: seq<Item>)
    requires cards != []
    requires NoCard(cards[..|cards| - 1], cards[|cards| - 1].service)
    ensures Nodes(AppendAll(cards, cards[|cards| - 1].service, items)) == Nodes(cards) + items
    decreases |items|
  {
    var s := cards[|cards| - 1].service;
    if items == [] {
      assert Nodes(cards) + items == Nodes(cards);
    } else {
      var next := AppendItem(cards, s, items[0]);
      assert Nodes(next) == Nodes(cards) + [items[0]] by {
        AppendItemToLast(cards, items[0]);
      }
      assert && next != [] && next[|next| - 1].service == s && NoCard(next[..|next| - 1], s) by {
        SameServices(cards, next);
        PrefixNoCard(cards, next);
      }
      var r := AppendAll(next, s, items[1..]);
      AppendAllNodes(next, items[1..]);
      AppendAllStep(cards, s, items, next, r);
    }
  }

  /** One step of `AppendAllNodes`: the first item, then the rest. */
  lemma {:induction false} AppendAllStep(cards: seq<Card>, s: string, items: seq<Item>, next: seq<Card>, r: seq<Card>)
    requires items != [] && next == AppendItem(cards, s, items[0]) && r == AppendAll(next, s, items[1..])
    requires Nodes(next) == Nodes(cards) + [items[0]] && Nodes(r) == Nodes(next) + items[1..]
    ensures AppendAll(cards, s, items) == r
    ensures Nodes(r) == Nodes(cards) + items
  {
    assert Nodes(cards) + [items[0]] + items[1..] == Nodes(cards) + items;
  }

  /** Two card lists with the same services agree on the uniqueness of the last one. */
  lemma {:induction false} PrefixNoCard(a: seq<Card>, b: seq<Card>)
    requires |a| == |b| > 0
    requires forall j :: 0 <= j < |a| ==> a[j].service == b[j].service
    requires NoCard(a[..|a| - 1], a[|a| - 1].service)
    ensures NoCard(b[..|b| - 1], b[|b| - 1].service)
  {
    var s, ap, bp := a[|a| - 1].service, a[..|a| - 1], b[..|b| - 1];
    forall j | 0 <= j < |bp| ensures bp[j].service != s {
      assert ap[j] == a[j];
    }
  }

  /** A new, empty card adds a service and no item. */
  lemma {:induction false} OpenCard(cards: seq<Card>, service: string)
    ensures Nodes(cards + [Card(service, [])]) == Nodes(cards)
    ensures Services(cards + [Card(service, [])]) == Services(cards) + [service]
  {
    NodesAppend(cards, [Card(service, [])]);
    assert Nodes([Card(service, [])]) == [] + Nodes([]);
    assert Services([Card(service, [])]) == [service] + Services([]);
  }

  lemma {:induction false} SameServices(a: seq<Card>, b: seq<Card>)
    requires Services(a) == Services(b)
    ensures |a| == |b| && forall j :: 0 <= j < |a| ==> a[j].service == b[j].service
  {
    ServicesIndex(a);
    ServicesIndex(b);
  }

  /** Whether a service has a card depends only on the list of services. */
  lemma {:induction false} NoCardByServices(a: seq<Card>, b: seq<Card>, service: string)
    requires Services(a) == Services(b)
    requires NoCard(a, service)
    ensures NoCard(b, service)
  {
    ServicesIndex(a);
    ServicesIndex(b);
    forall j | 0 <= j < |b| ensures b[j].service != service {
      assert b[j].service == Services(b)[j] == Services(a)[j] == a[j].service;
    }
  }

  predicate DistinctServices(services: seq<string>) {
    forall i, j :: 0 <= i < j < |services| ==> services[i] != services[j]
  }

  /** None of the services has a card. */
  predicate NoCards(cards: seq<Card>, services: seq<string>) {
    forall i :: 0 <= i < |services| ==> NoCard(cards, services[i])
  }

  /** One service of `writeServicesAndRules`: a new card, then its items. */
  lemma {:induction false} RenderStep(cards: seq<Card>, service: string, later: seq<string>, items: seq<Item>)
    requires NoCard(cards, service) && NoCards(cards, later) && service !in later
    ensures var next := AppendAll(cards + [Card(service, [])], service, items);
      && Nodes(next) == Nodes(cards) + items && Services(next) == Services(cards) + [service]
      && NoCards(next, later)
  {
    var withCard := cards + [Card(service, [])];
    assert Nodes(withCard) == Nodes(cards) && Services(withCard) == Services(cards) + [service] by {
      OpenCard(cards, service);
    }
    assert NoCard(withCard[..|withCard| - 1], service) by {
      assert withCard[..|withCard| - 1] == cards;
    }
    var next := AppendAll(withCard, service, items);
    assert Nodes(next) == Nodes(cards) + items && Services(next) == Services(withCard) by {
      AppendAllToLast(withCard, items);
    }
    forall i | 0 <= i < |later| ensures NoCard(next, later[i]) {
      var x := later[i];
      assert NoCard(withCard, x) by {
        forall j | 0 <= j < |withCard| ensures withCard[j].service != x {
          if j < |cards| { assert withCard[j] == cards[j]; }
        }
      }
      NoCardByServices(withCard, next, x);
    }
  }

  /**
   * With distinct services that have no card yet, rendering appends one card
   * per service in the given order, and all of a service's items come before
   * any item of the next service.
   */
  lemma {:induction false} RenderOrder(cards: seq<Card>, services: seq<string>, lists: seq<seq<Item>>)
    requires |services| == |lists|
    requires DistinctServices(services) && NoCards(cards, services)
    ensures Nodes(RenderServices(cards, services, lists)) == Nodes(cards) + Flatten(lists)
    ensures Services(RenderServices(cards, services, lists)) == Services(cards) + services
    decreases |services|
  {
    if services == [] {
      assert Nodes(cards) + Flatten(lists) == Nodes(cards);
      assert Services(cards) + services == Services(cards);
    } else {
      var s, later := services[0], services[1..];
      assert s !in later && NoCard(cards, s) && NoCards(cards, later) && DistinctServices(later) by {
        assert forall i :: 0 <= i < |later| ==> later[i] == services[i + 1];
      }
      var next := AppendAll(cards + [Card(s, [])], s, lists[0]);
      assert && Nodes(next) == Nodes(cards) + lists[0] && Services(next) == Services(cards) + [s]
             && NoCards(next, later) by {
        RenderStep(cards, s, later, lists[0]);
      }
      var r := RenderServices(next, later, lists[1..]);
      assert Nodes(r) == Nodes(next) + Flatten(lists[1..]) && Services(r) == Services(next) + later by {
        RenderOrder(next, later, lists[1..]);
      }
      RenderOrderStep(cards, services, lists, next, r);
    }
  }

  /** One step of `RenderOrder`: the first service, then the others. */
  lemma {:induction false} RenderOrderStep(cards: seq<Card>, services: seq<string>, lists: seq<seq<Item>>,
                                           next: seq<Card>, r: seq<Card>)
    requires |services| == |lists| > 0
    requires next == AppendAll(cards + [Card(services[0], [])], services[0], lists[0])
    requires r == RenderServices(next, services[1..], lists[1..])
    requires Nodes(next) == Nodes(cards) + lists[0] && Services(next) == Services(cards) + [services[0]]
    requires Nodes(r) == Nodes(next) + Flatten(lists[1..]) && Services(r) == Services(next) + services[1..]
    ensures RenderServices(cards, services, lists) == r
    ensures Nodes(r) == Nodes(cards) + Flatten(lists)
    ensures Services(r) == Services(cards) + services
  {
    assert Flatten(lists) == lists[0] + Flatten(lists[1..]);
    Associative(Nodes(cards), lists[0], Flatten(lists[1..]));
    Associative(Services(cards), [services[0]], services[1..]);
    assert [services[0]] + services[1..] == services;
  }

  /** Concatenation is associative. */
  lemma {:induction false} Associative<T>(a: seq<T>, b: seq<T>, c: seq<T>)
    ensures (a + b) + c == a + (b + c)
  {
  }

  /** The position of the first item of a rule in a list. */
  function FirstItem(items: seq<Item>, ruleId: int): (r: Option<nat>)
    ensures r.Some? ==> r.value < |items| && items[r.value].id == ruleId
    ensures r.Some? ==> forall j :: 0 <= j < r.value ==> items[j].id != ruleId
    ensures r.None? ==> forall j :: 0 <= j < |items| ==> items[j].id != ruleId
  {
    if items == [] then None
    else if items[0].id == ruleId then Some(0)
    else match FirstItem(items[1..], ruleId)
      case None => None
      case Some(k) => Some(k + 1)
  }

  /** A list without the first item of a rule. */
  function RemoveFirst(items: seq<Item>, ruleId: int): seq<Item> {
    if items == [] then []
    else if items[0].id == ruleId then items[1..]
    else [items[0]] + RemoveFirst(items[1..], ruleId)
  }

  /** Removal takes out the item `FirstItem` finds and keeps the rest in order. */
  lemma {:induction false} RemoveFirstSpec(items: seq<Item>, ruleId: int)
    ensures match FirstItem(items, ruleId)
      case None => RemoveFirst(items, ruleId) == items
      case Some(k) => RemoveFirst(items, ruleId) == items[..k] + items[k + 1..]
  {
    if items != [] && items[0].id != ruleId {
      var x, rest := items[0], items[1..];
      assert RemoveFirst(items, ruleId) == [x] + RemoveFirst(rest, ruleId);
      match FirstItem(rest, ruleId)
      case None =>
        assert RemoveFirst(rest, ruleId) == rest by {
          RemoveFirstSpec(rest, ruleId);
        }
        assert [x] + rest == items;
      case Some(k) =>
        assert FirstItem(items, ruleId) == Some(k + 1);
        assert RemoveFirst(rest, ruleId) == rest[..k] + rest[k + 1..] by {
          RemoveFirstSpec(rest, ruleId);
        }
        ConsWithout(items, k);
    }
  }

  /** Taking out the element after position `k` of the tail, then putting back the head. */
  lemma {:induction false} ConsWithout<T>(xs: seq<T>, k: nat)
    requires k + 1 < |xs|
    ensures [xs[0]] + (xs[1..][..k] + xs[1..][k + 1..]) == xs[..k + 1] + xs[k + 2..]
  {
    assert [xs[0]] + xs[1..][..k] == xs[..k + 1];
    assert xs[1..][k + 1..] == xs[k + 2..];
  }

  /**
   * `$('#rule-<ruleId>').remove()`: the first item of the rule in document
   * order goes. Selecting by element id is selecting by rule id, because
   * `Markup.DomId` is injective (`Markup.DomIdInjective`).
   */
  function RemoveNode(cards: seq<Card>, ruleId: int): seq<Card> {
    if cards == [] then []
    else if FirstItem(cards[0].items, ruleId).Some? then
      [Card(cards[0].service, RemoveFirst(cards[0].items, ruleId))] + cards[1..]
    else [cards[0]] + RemoveNode(cards[1..], ruleId)
  }

  /** Removal from a concatenation whose first part holds the rule stays in that part. */
  lemma {:induction false} RemoveFirstAppendHit(xs: seq<Item>, ys: seq<Item>, ruleId: int)
    requires FirstItem(xs, ruleId).Some?
    ensures RemoveFirst(xs + ys, ruleId) == RemoveFirst(xs, ruleId) + ys
  {
    var x, tail := xs[0], xs[1..];
    assert (xs + ys)[0] == x && (xs + ys)[1..] == tail + ys;
    if x.id != ruleId {
      RemoveFirstAppendHit(tail, ys, ruleId);
      assert RemoveFirst(xs + ys, ruleId) == [x] + (RemoveFirst(tail, ruleId) + ys);
    }
  }

  /** Removal from a concatenation whose first part lacks the rule happens in the second part. */
  lemma {:induction false} RemoveFirstAppendMiss(xs: seq<Item>, ys: seq<Item>, ruleId: int)
    requires FirstItem(xs, ruleId).None?
    ensures RemoveFirst(xs + ys, ruleId) == xs + RemoveFirst(ys, ruleId)
  {
    if xs == [] {
      assert xs + ys == ys;
    } else {
      var x, tail := xs[0], xs[1..];
      assert RemoveFirst(xs + ys, ruleId) == [x] + RemoveFirst(tail + ys, ruleId) by {
        assert (xs + ys)[0] == x && (xs + ys)[1..] == tail + ys;
        assert x.id != ruleId;
      }
      assert RemoveFirst(tail + ys, ruleId) == tail + RemoveFirst(ys, ruleId) by {
        assert FirstItem(tail, ruleId).None?;
        RemoveFirstAppendMiss(tail, ys, ruleId);
      }
      assert [x] + (tail + RemoveFirst(ys, ruleId)) == xs + RemoveFirst(ys, ruleId);
    }
  }

  /** Removing by rule id acts on the document as removing from its list of items. */
  lemma {:induction false} RemoveNodeNodes(cards: seq<Card>, ruleId: int)
    ensures Nodes(RemoveNode(cards, ruleId)) == RemoveFirst(Nodes(cards), ruleId)
    ensures Services(RemoveNode(cards, ruleId)) == Services(cards)
  {
    if cards != [] {
      var c, rest := cards[0], cards[1..];
      var r := RemoveNode(cards, ruleId);
      if FirstItem(c.items, ruleId).Some? {
        RemoveFirstAppendHit(c.items, Nodes(rest), ruleId);
        assert r[0] == Card(c.service, RemoveFirst(c.items, ruleId)) && r[1..] == rest;
      } else {
        RemoveFirstAppendMiss(c.items, Nodes(rest), ruleId);
        RemoveNodeNodes(rest, ruleId);
        assert r[0] == c && r[1..] == RemoveNode(rest, ruleId);
      }
    }
  }

  /**
   * Removing `rule-<ruleId>` takes out exactly the first item with that id, keeps
   * every other item in order, and removes nothing when no item has it.
   */
  lemma {:induction false} DeleteRemovesOnlyThatRule(cards: seq<Card>, ruleId: int)
    ensures var before, after := Nodes(cards), Nodes(RemoveNode(cards, ruleId));
      && ((forall j :: 0 <= j < |before| ==> before[j].id != ruleId) ==> after == before)
      && (forall k :: (&& 0 <= k < |before| && before[k].id == ruleId
                         && forall j :: 0 <= j < k ==> before[j].id != ruleId) ==>
              after == before[..k] + before[k + 1..])
  {
    var before := Nodes(cards);
    RemoveNodeNodes(cards, ruleId);
    RemoveFirstSpec(before, ruleId);
  }

  /** Ids are unique among the items. */
  predicate UniqueIds(items: seq<Item>) {
    forall i, j :: 0 <= i < j < |items| ==> items[i].id != items[j].id
  }

  /** Removing the item at `k` from a list with unique ids removes exactly the items with its id. */
  lemma {:induction false} RemoveAtMembers(items: seq<Item>, k: nat, item: Item)
    requires k < |items| && UniqueIds(items)
    ensures item in items[..k] + items[k + 1..] <==> item in items && item.id != items[k].id
  {
    var after := items[..k] + items[k + 1..];
    if item in after {
      var m :| 0 <= m < |after| && after[m] == item;
      if m < k { assert item == items[m]; } else { assert item == items[m + 1]; }
    }
    if item in items && item.id != items[k].id {
      var m :| 0 <= m < |items| && items[m] == item;
      if m < k { assert after[m] == item; } else { assert after[m - 1] == item; }
    }
  }

  /** When item ids are unique, the rule is gone afterwards and every other rule stays. */
  lemma {:induction false} DeleteWithUniqueIds(cards: seq<Card>, ruleId: int)
    requires UniqueIds(Nodes(cards))
    ensures var after := Nodes(RemoveNode(cards, ruleId));
      forall item :: item in after <==> item in Nodes(cards) && item.id != ruleId
  {
    var before := Nodes(cards);
    RemoveNodeNodes(cards, ruleId);
    RemoveFirstSpec(before, ruleId);
    var after := Nodes(RemoveNode(cards, ruleId));
    match FirstItem(before, ruleId)
    case Some(k) =>
      forall item ensures item in after <==> item in before && item.id != ruleId {
        RemoveAtMembers(before, k, item);
      }
    case None =>
  }
}
