/** Status codes: those of wolfMQTT and those the library reports, and the change from one to the other. */
module MqttStatus {

  const MQTT_SUCCESS := 3000
  const MQTT_ERR_NOMEM := 3001
  const MQTT_ERR_INVAL := 3003
  const MQTT_ERR_TLS := 3008
  const MQTT_ERR_PAYLOAD_SIZE := 3009
  const MQTT_ERR_ERRNO := 3014
  const MQTT_CONTINUE := 3018
  const MQTT_RETRY := 3019
  const MQTT_ERR_OTHERS := 3021

  const MQTT_CODE_SUCCESS := 0
  const MQTT_CODE_ERROR_TIMEOUT := -7

  /** MqttErrorStatusChange, for every code a library call can return. */
  function ErrorStatusChange(code: int): (status: int)
    ensures MQTT_SUCCESS <= status <= MQTT_ERR_OTHERS
    ensures status == MQTT_SUCCESS <==> code == MQTT_CODE_SUCCESS
  {
    match code
    case 0 => MQTT_SUCCESS
    case -1 => MQTT_ERR_INVAL
    case -2 => MQTT_ERR_PAYLOAD_SIZE
    case -3 => MQTT_ERR_INVAL
    case -4 => MQTT_ERR_INVAL
    case -5 => MQTT_ERR_INVAL
    case -6 => MQTT_ERR_TLS
    case -7 => MQTT_ERR_ERRNO
    case -8 => MQTT_ERR_ERRNO
    case -9 => MQTT_ERR_NOMEM
    case -10 => MQTT_ERR_ERRNO
    case -11 => MQTT_ERR_INVAL
    case -12 => MQTT_ERR_ERRNO
    case -13 => MQTT_ERR_ERRNO
    case -101 => MQTT_CONTINUE
    case -102 => MQTT_ERR_INVAL
    case _ => MQTT_ERR_OTHERS
  }

  /** Which codes give which status. */
  lemma StatusMeans(code: int)
    ensures ErrorStatusChange(code) == 3000 <==> code == 0
    ensures ErrorStatusChange(code) == 3001 <==> code == -9
    ensures ErrorStatusChange(code) == 3003 <==> code in {-1, -3, -4, -5, -11, -102}
    ensures ErrorStatusChange(code) == 3008 <==> code == -6
    ensures ErrorStatusChange(code) == 3009 <==> code == -2
    ensures ErrorStatusChange(code) == 3014 <==> code in {-7, -8, -10, -12, -13}
    ensures ErrorStatusChange(code) == 3018 <==> code == -101
    ensures ErrorStatusChange(code) == 3021 <==> code > 0 || code < -102 || -101 < code < -13
  {
  }
}
