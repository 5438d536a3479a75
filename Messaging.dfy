/** MessageConverter: field copying between a service result, the Message
    that carries it to the dispatcher, and the websocket contract sent to
    clients. The converter reads only a result's entity, notification type
    and message (MessageConverter.java:24-45), so the result type here holds
    exactly those three and is declared apart from Common's. */
module Messaging {
  import Common

  datatype NotificationType = Created | Updated | Deleted | NoNotification

  /** io.hawkcd.model.ServiceResult: the entity, the notification type and the message. */
  datatype ServiceResult<E> = ServiceResult(entity: Common.Option<E>, notificationType: NotificationType, message: string)

  /** A converted call: which service, package and method produced the result, the
      result's three parts, and the user the message is for. */
  datatype Message<E, U> = Message(serviceCalled: string, packageName: string, methodCalled: string,
                                   resultObject: Common.Option<E>, resultNotificationType: NotificationType,
                                   resultMessage: string, owner: U)

  /** WsContractDto: what a websocket client receives. */
  datatype WsContractDto<E> = WsContractDto(className: string, packageName: string, methodName: string,
                                            result: Common.Option<E>, notificationType: NotificationType,
                                            message: string)

  /** convert(Message): a contract with the message's six call and result fields, and no owner. */
  function ConvertMessage<E, U>(message: Message<E, U>): WsContractDto<E> {
    WsContractDto(message.serviceCalled, message.packageName, message.methodCalled,
                  message.resultObject, message.resultNotificationType, message.resultMessage)
  }

  /** convert(user, className, packageName, methodName, sResult): a Message of the call and the result for the user. */
  function ToMessage<E, U>(user: U, className: string, packageName: string, methodName: string,
                           sResult: ServiceResult<E>): Message<E, U> {
    Message(className, packageName, methodName, sResult.entity, sResult.notificationType, sResult.message, user)
  }

  /** convert(className, packageName, methodName, sResult) as written: the contract
      it builds is dropped and the call answers null. */
  function ConvertResultAsWritten<E>(className: string, packageName: string, methodName: string,
                                     sResult: ServiceResult<E>): (r: Common.Option<WsContractDto<E>>)
    ensures r.None?
  {
    var contract := WsContractDto(className, packageName, methodName, sResult.entity,
                                  sResult.notificationType, sResult.message);
    Common.None
  }

  /** convert(className, packageName, methodName, sResult) as intended: the contract
      it builds, the same one the two-step route through a Message yields for any user. */
  function ConvertResult<E>(className: string, packageName: string, methodName: string,
                            sResult: ServiceResult<E>): (r: Common.Option<WsContractDto<E>>)
    ensures r.Some?
    ensures r.value.className == className && r.value.packageName == packageName && r.value.methodName == methodName
    ensures r.value.result == sResult.entity && r.value.notificationType == sResult.notificationType
    ensures r.value.message == sResult.message
  {
    Common.Some(WsContractDto(className, packageName, methodName, sResult.entity,
                              sResult.notificationType, sResult.message))
  }

  /** The Message carries the call's names, the result's three parts and the user, unchanged. */
  lemma MessageCarriesResult<E, U>(user: U, className: string, packageName: string, methodName: string,
                                   sResult: ServiceResult<E>)
    ensures var m := ToMessage(user, className, packageName, methodName, sResult);
            && m.serviceCalled == className && m.packageName == packageName && m.methodCalled == methodName
            && ServiceResult(m.resultObject, m.resultNotificationType, m.resultMessage) == sResult
            && m.owner == user
  {
  }

  /** Converting a message copies its call and result fields, and the owner has no part in the contract. */
  lemma ContractOfMessage<E, U>(message: Message<E, U>, other: U)
    ensures var c := ConvertMessage(message);
            && c.className == message.serviceCalled && c.packageName == message.packageName
            && c.methodName == message.methodCalled && c.result == message.resultObject
            && c.notificationType == message.resultNotificationType && c.message == message.resultMessage
    ensures ConvertMessage(message.(owner := other)) == ConvertMessage(message)
  {
  }

  /** The five-argument convert followed by convert(Message) yields the contract of
      the call and the result, whoever the user; that is the contract the corrected
      four-argument convert returns. */
  lemma TwoStepRoundTrip<E, U>(user: U, className: string, packageName: string, methodName: string,
                               sResult: ServiceResult<E>)
    ensures ConvertMessage(ToMessage(user, className, packageName, methodName, sResult))
            == WsContractDto(className, packageName, methodName, sResult.entity, sResult.notificationType, sResult.message)
    ensures ConvertResult(className, packageName, methodName, sResult)
            == Common.Some(ConvertMessage(ToMessage(user, className, packageName, methodName, sResult)))
  {
  }

  /** The four-argument convert as written never agrees with the two-step route. */
  lemma AsWrittenLosesContract<E, U>(user: U, className: string, packageName: string, methodName: string,
                                     sResult: ServiceResult<E>)
    ensures ConvertResultAsWritten(className, packageName, methodName, sResult)
            != Common.Some(ConvertMessage(ToMessage(user, className, packageName, methodName, sResult)))
  {
  }
}
